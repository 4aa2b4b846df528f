/** What each command means, on any flat object and in any order of fields. */
module FlatCommands {
  import opened App
  import opened FieldValues
  import opened FlatObject
  import opened Protocol
  import opened Wrappers

  predicate Known(w: string) {
    w == "ring" || w == "lamp" || w == "config" || w == "ping" || w == "ota" || w == "hello"
  }

  /** The first field named "cmd" is a string, `verb`. */
  ghost predicate HasVerb(fs: seq<Field>, verb: string) {
    exists i: nat :: IsFirst(fs, "cmd", i) && fs[i].value == Str(verb)
  }

  lemma ShortWord(verb: string, w: string)
    requires |w| < 15
    ensures UpTo(verb, 15) == w <==> verb == w
  {
  }

  /** The 15 characters that are read tell the verbs apart, and any longer word from all of them. */
  lemma VerbRead(fs: seq<Field>, verb: string, tail: string) returns (v: string)
    requires FieldsOk(fs) && QuoteFree(tail) && HasVerb(fs, verb)
    ensures GetStr(Object(fs, tail), "cmd", 16) == Some(v)
    ensures (v == "ring" <==> verb == "ring") && (v == "lamp" <==> verb == "lamp")
    ensures (v == "config" <==> verb == "config") && (v == "ping" <==> verb == "ping")
    ensures (v == "ota" <==> verb == "ota") && (v == "hello" <==> verb == "hello")
  {
    var i: nat :| IsFirst(fs, "cmd", i) && fs[i].value == Str(verb);
    ProgramKeysOk("cmd");
    StringField(fs, "cmd", i, tail);
    v := UpTo(verb, 15);
    ShortWord(verb, "ring");
    ShortWord(verb, "lamp");
    ShortWord(verb, "config");
    ShortWord(verb, "ping");
    ShortWord(verb, "ota");
    ShortWord(verb, "hello");
  }

  lemma KindOfWord(line: string, v: string)
    requires GetStr(line, "cmd", 16) == Some(v)
    ensures Parse(line).0
    ensures var k := Parse(line).1.kind;
            && (k == Ring <==> v == "ring") && (k == Lamp <==> v == "lamp") && (k == Config <==> v == "config")
            && (k == Ping <==> v == "ping") && (k == Ota <==> v == "ota") && (k == Hello <==> v == "hello")
            && (k == Unknown <==> !Known(v))
  {
  }

  /** The verb decides the kind of command; every other word is an unknown one. */
  lemma VerbDecides(fs: seq<Field>, verb: string, tail: string)
    requires FieldsOk(fs) && QuoteFree(tail) && HasVerb(fs, verb)
    ensures Parse(Object(fs, tail)).0
    ensures var k := Parse(Object(fs, tail)).1.kind;
            && (k == Ring <==> verb == "ring") && (k == Lamp <==> verb == "lamp")
            && (k == Config <==> verb == "config") && (k == Ping <==> verb == "ping")
            && (k == Ota <==> verb == "ota") && (k == Hello <==> verb == "hello")
            && (k == Unknown <==> !Known(verb))
  {
    var v := VerbRead(fs, verb, tail);
    KindOfWord(Object(fs, tail), v);
  }

  /** Without a "cmd" field, or with one that is no string, there is no command. */
  lemma NoVerb(fs: seq<Field>, tail: string)
    requires FieldsOk(fs) && QuoteFree(tail)
    requires NoField(fs, "cmd") || exists i: nat :: IsFirst(fs, "cmd", i) && fs[i].value.Bare?
    ensures !Parse(Object(fs, tail)).0
  {
    ProgramKeysOk("cmd");
    if NoField(fs, "cmd") {
      NotFound(fs, "cmd", tail);
    } else {
      var i: nat :| IsFirst(fs, "cmd", i) && fs[i].value.Bare?;
      StringField(fs, "cmd", i, tail);
    }
  }

  // ---- the parameters ----

  /**
   The first field with that key is the number that `v` is, saturated; or `v` is -1, and there is no
   such field or it is no number.
   */
  ghost predicate IntIs(fs: seq<Field>, key: string, v: int) {
    || (NoField(fs, key) && v == -1)
    || (exists i: nat :: IsFirst(fs, key, i) && NoNumber(fs[i].value) && v == -1)
    || exists i: nat, n :: IsFirst(fs, key, i) && fs[i].value == Bare(Decimal(n)) && v == Saturate(n)
  }

  lemma NoInt(json: string, key: string)
    requires FindKey(json, key) == None
    ensures GetInt(json, key) == None
  {
  }

  lemma IntRead(fs: seq<Field>, key: string, v: int, tail: string)
    requires FieldsOk(fs) && KeyOk(key) && QuoteFree(tail) && IntIs(fs, key, v)
    ensures Or(GetInt(Object(fs, tail), key), -1) == v
  {
    if NoField(fs, key) {
      NotFound(fs, key, tail);
      NoInt(Object(fs, tail), key);
    } else if i: nat :| IsFirst(fs, key, i) && NoNumber(fs[i].value) && v == -1 {
      IntField(fs, key, i, 0, tail);
    } else {
      var i: nat, n :| IsFirst(fs, key, i) && fs[i].value == Bare(Decimal(n)) && v == Saturate(n);
      IntField(fs, key, i, n, tail);
    }
  }

  /** The first field with that key is a boolean, or 1 or 0, and `v` says which; or there is none. */
  ghost predicate BoolIs(fs: seq<Field>, key: string, v: int) {
    || (NoField(fs, key) && v == -1)
    || exists i: nat :: IsFirst(fs, key, i) && BoolValue(fs[i].value, v)
  }

  predicate BoolValue(x: Value, v: int) {
    || (v == 1 && (x == Bare("true") || x == Bare("1")))
    || (v == 0 && (x == Bare("false") || x == Bare("0")))
    || (v == -1 && x.Str?)
  }

  lemma BoolRead(fs: seq<Field>, key: string, v: int, tail: string)
    requires FieldsOk(fs) && KeyOk(key) && QuoteFree(tail) && BoolIs(fs, key, v)
    ensures Or(GetBool(Object(fs, tail), key), -1) == v
  {
    if NoField(fs, key) {
      NotFound(fs, key, tail);
    } else {
      var i: nat :| IsFirst(fs, key, i) && BoolValue(fs[i].value, v);
      BoolField(fs, key, i, tail);
    }
  }

  lemma ParsesRing(line: string)
    requires GetStr(line, "cmd", 16) == Some("ring")
    ensures Parse(line).1
         == Cmd(Ring, Or(GetInt(line, "id"), -1), Or(GetInt(line, "r"), -1), Or(GetInt(line, "g"), -1),
                Or(GetInt(line, "b"), -1), Or(GetInt(line, "brightness"), -1), -1, -1)
  {
  }

  /** A ring command: every parameter from the field of its name, absent ones -1. */
  lemma RingObject(fs: seq<Field>, tail: string, id: int, r: int, g: int, b: int, brightness: int)
    requires FieldsOk(fs) && QuoteFree(tail) && HasVerb(fs, "ring")
    requires IntIs(fs, "id", id) && IntIs(fs, "r", r) && IntIs(fs, "g", g) && IntIs(fs, "b", b)
    requires IntIs(fs, "brightness", brightness)
    ensures Parse(Object(fs, tail)).1 == Cmd(Ring, id, r, g, b, brightness, -1, -1)
  {
    VerbIs(fs, "ring", tail);
    RingInts(fs, tail, id, r, g, b, brightness);
    ParsesRing(Object(fs, tail));
  }

  lemma RingInts(fs: seq<Field>, tail: string, id: int, r: int, g: int, b: int, brightness: int)
    requires FieldsOk(fs) && QuoteFree(tail)
    requires IntIs(fs, "id", id) && IntIs(fs, "r", r) && IntIs(fs, "g", g) && IntIs(fs, "b", b)
    requires IntIs(fs, "brightness", brightness)
    ensures var line := Object(fs, tail);
            && Or(GetInt(line, "id"), -1) == id && Or(GetInt(line, "r"), -1) == r && Or(GetInt(line, "g"), -1) == g
            && Or(GetInt(line, "b"), -1) == b && Or(GetInt(line, "brightness"), -1) == brightness
  {
    KeyRead(fs, "id", id, tail);
    KeyRead(fs, "r", r, tail);
    KeyRead(fs, "g", g, tail);
    KeyRead(fs, "b", b, tail);
    KeyRead(fs, "brightness", brightness, tail);
  }

  lemma KeyRead(fs: seq<Field>, key: string, v: int, tail: string)
    requires FieldsOk(fs) && QuoteFree(tail) && IntIs(fs, key, v)
    requires key in ["cmd", "id", "r", "g", "b", "brightness", "on", "debounce_ms"]
    ensures Or(GetInt(Object(fs, tail), key), -1) == v
  {
    ProgramKeysOk(key);
    IntRead(fs, key, v, tail);
  }

  lemma VerbIs(fs: seq<Field>, verb: string, tail: string)
    requires FieldsOk(fs) && QuoteFree(tail) && HasVerb(fs, verb) && Known(verb)
    ensures GetStr(Object(fs, tail), "cmd", 16) == Some(verb)
  {
    var v := VerbRead(fs, verb, tail);
  }

  /** A lamp command. */
  lemma LampObject(fs: seq<Field>, tail: string, on: int)
    requires FieldsOk(fs) && QuoteFree(tail) && HasVerb(fs, "lamp") && BoolIs(fs, "on", on)
    ensures Parse(Object(fs, tail)).1 == Cmd(Lamp, -1, -1, -1, -1, -1, on, -1)
  {
    VerbIs(fs, "lamp", tail);
    ProgramKeysOk("on");
    BoolRead(fs, "on", on, tail);
    ParsesLamp(Object(fs, tail), on);
  }

  lemma ParsesLamp(line: string, on: int)
    requires GetStr(line, "cmd", 16) == Some("lamp") && Or(GetBool(line, "on"), -1) == on
    ensures Parse(line).1 == Cmd(Lamp, -1, -1, -1, -1, -1, on, -1)
  {
  }

  /** A config command. */
  lemma ConfigObject(fs: seq<Field>, tail: string, ms: int)
    requires FieldsOk(fs) && QuoteFree(tail) && HasVerb(fs, "config") && IntIs(fs, "debounce_ms", ms)
    ensures Parse(Object(fs, tail)).1 == Cmd(Config, -1, -1, -1, -1, -1, -1, ms)
  {
    VerbIs(fs, "config", tail);
    KeyRead(fs, "debounce_ms", ms, tail);
    ParsesConfig(Object(fs, tail), ms);
  }

  lemma ParsesConfig(line: string, ms: int)
    requires GetStr(line, "cmd", 16) == Some("config") && Or(GetInt(line, "debounce_ms"), -1) == ms
    ensures Parse(line).1 == Cmd(Config, -1, -1, -1, -1, -1, -1, ms)
  {
  }

  // ---- the replies ----

  function ReplyToLine(line: string): Reply { ReplyTo(Parse(line).0, Parse(line).1) }

  /** Whatever the line, it is answered as an update request if and only if its verb is "ota". */
  lemma OnlyOtaUpdates(line: string)
    ensures ReplyToLine(line) == Ack("ota") <==> GetStr(line, "cmd", 16) == Some("ota")
  {
    if GetStr(line, "cmd", 16).Some? {
      KindOfWord(line, GetStr(line, "cmd", 16).value);
    }
  }

  lemma OnlyOtaObjectsUpdate(fs: seq<Field>, verb: string, tail: string)
    requires FieldsOk(fs) && QuoteFree(tail) && HasVerb(fs, verb)
    ensures ReplyToLine(Object(fs, tail)) == Ack("ota") <==> verb == "ota"
  {
    var v := VerbRead(fs, verb, tail);
    OnlyOtaUpdates(Object(fs, tail));
  }

  /** A lamp command is obeyed if it says on or off, a config command if it says 1 to 1000 ms. */
  lemma LampAndConfigReplies(fs: seq<Field>, tail: string, v: int)
    requires FieldsOk(fs) && QuoteFree(tail)
    ensures HasVerb(fs, "lamp") && BoolIs(fs, "on", v) ==>
      ReplyToLine(Object(fs, tail)) == if v == 0 || v == 1 then Ack("lamp") else Err("bad lamp cmd")
    ensures HasVerb(fs, "config") && IntIs(fs, "debounce_ms", v) ==>
      ReplyToLine(Object(fs, tail)) == if 1 <= v <= 1000 then Ack("config") else Err("bad debounce_ms")
  {
    if HasVerb(fs, "lamp") && BoolIs(fs, "on", v) {
      VerbDecides(fs, "lamp", tail);
      LampObject(fs, tail, v);
    }
    if HasVerb(fs, "config") && IntIs(fs, "debounce_ms", v) {
      VerbDecides(fs, "config", tail);
      ConfigObject(fs, tail, v);
    }
  }

  predicate ByteOrAbsent(v: int) { -1 <= v <= 255 }

  /** A ring command is obeyed if it names ring 1 or 2 and every other parameter is absent or a byte. */
  lemma RingReplies(fs: seq<Field>, tail: string, id: int, r: int, g: int, b: int, brightness: int)
    requires FieldsOk(fs) && QuoteFree(tail) && HasVerb(fs, "ring")
    requires IntIs(fs, "id", id) && IntIs(fs, "r", r) && IntIs(fs, "g", g) && IntIs(fs, "b", b)
    requires IntIs(fs, "brightness", brightness)
    ensures ReplyToLine(Object(fs, tail)) ==
      if 1 <= id <= 2 && ByteOrAbsent(r) && ByteOrAbsent(g) && ByteOrAbsent(b) && ByteOrAbsent(brightness)
      then Ack("ring") else Err("bad ring cmd")
  {
    VerbDecides(fs, "ring", tail);
    RingObject(fs, tail, id, r, g, b, brightness);
  }

  /** The other verbs, and lines without one. */
  lemma OtherReplies(fs: seq<Field>, verb: string, tail: string)
    requires FieldsOk(fs) && QuoteFree(tail) && HasVerb(fs, verb)
    ensures verb == "ping" ==> ReplyToLine(Object(fs, tail)) == Ack("ping")
    ensures verb == "hello" ==> ReplyToLine(Object(fs, tail)) == HelloLine
    ensures verb == "ota" ==> ReplyToLine(Object(fs, tail)) == Ack("ota")
    ensures !Known(verb) ==> ReplyToLine(Object(fs, tail)) == Err("unknown cmd")
  {
    VerbDecides(fs, verb, tail);
  }

  lemma NoCommandReply(fs: seq<Field>, tail: string)
    requires FieldsOk(fs) && QuoteFree(tail) && NoField(fs, "cmd")
    ensures ReplyToLine(Object(fs, tail)) == Err("no cmd")
  {
    NoVerb(fs, tail);
  }
}

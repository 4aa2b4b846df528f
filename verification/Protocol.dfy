/** The device's parser for command lines: targeted field extraction from a flat JSON object. */
module Protocol {
  import opened Wrappers

  /** The pattern `"key"`. */
  function Quoted(key: string): string { "\"" + key + "\"" }

  predicate IsBlank(c: char) { c == ' ' || c == '\t' }

  predicate IsDigit(c: char) { '0' <= c <= '9' }

  function SkipBlanks(s: string): (t: string)
    ensures |t| <= |s|
  {
    if s != "" && IsBlank(s[0]) then SkipBlanks(s[1..]) else s
  }

  /** What follows a key's closing quote: its value, if a colon comes first. */
  function AfterKey(s: string): (r: Option<string>)
    ensures r.Some? ==> |r.value| <= |s|
  {
    var q := SkipBlanks(s);
    if q != "" && q[0] == ':' then Some(SkipBlanks(q[1..])) else None
  }

  /** `find_key`: the text from the value of `key` on; a match that no colon follows is passed over. */
  function FindKey(json: string, key: string): (r: Option<string>)
    ensures r.Some? ==> |r.value| <= |json|
    decreases |json|
  {
    if json == "" then None
    else if Quoted(key) <= json then
      var rest := json[|Quoted(key)|..];
      if AfterKey(rest).Some? then AfterKey(rest) else FindKey(rest, key)
    else FindKey(json[1..], key)
  }

  /** The characters of a string value, as many as the buffer takes. */
  function StringUpTo(s: string, room: nat): string
    decreases |s|
  {
    if s == "" || s[0] == '"' || room == 0 then "" else [s[0]] + StringUpTo(s[1..], room - 1)
  }

  function GetStr(json: string, key: string, size: nat): Option<string>
    requires size > 0
  {
    var p := FindKey(json, key);
    if p.None? || p.value == "" || p.value[0] != '"' then None else Some(StringUpTo(p.value[1..], size - 1))
  }

  function DigitValue(c: char): nat
    requires IsDigit(c)
  {
    c as int - '0' as int
  }

  /** The number whose digits are `a` followed by the leading digits of `s`. */
  function Accumulate(s: string, a: nat): nat
    decreases |s|
  {
    if s != "" && IsDigit(s[0]) then Accumulate(s[1..], 10 * a + DigitValue(s[0])) else a
  }

  const LONG_MAX := 0x7FFF_FFFF
  const LONG_MIN := -0x8000_0000

  function Saturate(n: int): int {
    if n > LONG_MAX then LONG_MAX else if n < LONG_MIN then LONG_MIN else n
  }

  /** `strtol` in base 10 on the device, whose `long` has 32 bits: out of range saturates. */
  function Strtol(s: string): int {
    var negative := s != "" && s[0] == '-';
    var size: int := Accumulate(if negative then s[1..] else s, 0);
    Saturate(if negative then -size else size)
  }

  function GetInt(json: string, key: string): Option<int> {
    var p := FindKey(json, key);
    if p.None? || p.value == "" || (p.value[0] != '-' && !IsDigit(p.value[0])) then None
    else Some(Strtol(p.value))
  }

  /** The digit stands alone: no further digit follows. */
  predicate LoneDigit(s: string, c: char) {
    s != "" && s[0] == c && (|s| == 1 || !IsDigit(s[1]))
  }

  function GetBool(json: string, key: string): Option<int> {
    var p := FindKey(json, key);
    if p.None? then None
    else if "true" <= p.value then Some(1)
    else if "false" <= p.value then Some(0)
    else if LoneDigit(p.value, '1') then Some(1)
    else if LoneDigit(p.value, '0') then Some(0)
    else None
  }

  datatype Kind = NoKind | Ring | Lamp | Config | Ping | Ota | Hello | Unknown

  datatype Cmd = Cmd(kind: Kind, id: int, r: int, g: int, b: int, brightness: int, on: int, debounceMs: int)

  function Or(v: Option<int>, absent: int): int { if v.Some? then v.value else absent }

  const NO_CMD := Cmd(NoKind, -1, -1, -1, -1, -1, -1, -1)

  function Parse(line: string): (bool, Cmd) {
    var verb := GetStr(line, "cmd", 16);
    if verb.None? then (false, NO_CMD)
    else
      (true,
       match verb.value
       case "ring" =>
         Cmd(Ring, Or(GetInt(line, "id"), -1), Or(GetInt(line, "r"), -1), Or(GetInt(line, "g"), -1),
             Or(GetInt(line, "b"), -1), Or(GetInt(line, "brightness"), -1), -1, -1)
       case "lamp" => NO_CMD.(kind := Lamp, on := Or(GetBool(line, "on"), -1))
       case "config" => NO_CMD.(kind := Config, debounceMs := Or(GetInt(line, "debounce_ms"), -1))
       case "ping" => NO_CMD.(kind := Ping)
       case "ota" => NO_CMD.(kind := Ota)
       case "hello" => NO_CMD.(kind := Hello)
       case _ => NO_CMD.(kind := Unknown))
  }

  // ---- the loops ----

  /** `strstr`: the first occurrence of `pat` at or after `from`, or -1. */
  method StrStr(s: string, from: nat, pat: string) returns (k: int)
    requires from <= |s|
    ensures k == -1 || from <= k <= |s|
    ensures k >= 0 ==> pat <= s[k..] && forall j :: from <= j < k ==> !(pat <= s[j..])
    ensures k == -1 ==> forall j :: from <= j <= |s| ==> !(pat <= s[j..])
  {
    k := from;
    while k <= |s|
      invariant from <= k <= |s| + 1
      invariant forall j :: from <= j < k ==> !(pat <= s[j..])
    {
      if pat <= s[k..] {
        return k;
      }
      k := k + 1;
    }
    return -1;
  }

  lemma {:induction false} FindKeySkips(json: string, key: string, a: nat, b: nat)
    requires a <= b <= |json|
    requires forall j :: a <= j < b ==> !(Quoted(key) <= json[j..])
    ensures FindKey(json[a..], key) == FindKey(json[b..], key)
    decreases b - a
  {
    if a < b {
      assert json[a..][1..] == json[a + 1..];
      assert !(Quoted(key) <= json[a..]);
      FindKeySkips(json, key, a + 1, b);
    }
  }

  method SkipBlanksFrom(s: string, at: nat) returns (q: nat)
    requires at <= |s|
    ensures at <= q <= |s| && s[q..] == SkipBlanks(s[at..])
  {
    q := at;
    while q < |s| && IsBlank(s[q])
      invariant at <= q <= |s| && SkipBlanks(s[q..]) == SkipBlanks(s[at..])
    {
      assert s[q..][1..] == s[q + 1..];
      q := q + 1;
    }
  }

  method AfterKeyAt(json: string, from: nat) returns (at: int)
    requires from <= |json|
    ensures at == -1 || from <= at <= |json|
    ensures AfterKey(json[from..]) == if at == -1 then None else Some(json[at..])
  {
    var q := SkipBlanksFrom(json, from);
    if q == |json| || json[q] != ':' {
      return -1;
    }
    assert json[q..][1..] == json[q + 1..];
    at := SkipBlanksFrom(json, q + 1);
  }

  /** One turn of the search: the next occurrence of the pattern decides, or is passed over. */
  lemma FindKeyTurn(json: string, key: string, from: nat, p: nat)
    requires from <= p <= |json| && Quoted(key) <= json[p..]
    requires forall j :: from <= j < p ==> !(Quoted(key) <= json[j..])
    ensures var next := json[p + |Quoted(key)|..];
            FindKey(json[from..], key) == if AfterKey(next).Some? then AfterKey(next) else FindKey(next, key)
  {
    FindKeySkips(json, key, from, p);
    assert json[p..][|Quoted(key)|..] == json[p + |Quoted(key)|..];
  }

  lemma FindKeyMisses(json: string, key: string, from: nat)
    requires from <= |json| && forall j :: from <= j <= |json| ==> !(Quoted(key) <= json[j..])
    ensures FindKey(json[from..], key) == None
  {
    FindKeySkips(json, key, from, |json|);
  }

  /** One turn of `find_key`'s loop: it is settled (by index, -1 for NULL), or goes on from `next`. */
  method Search(json: string, key: string, from: nat) returns (settled: bool, at: int, next: nat)
    requires from <= |json|
    ensures settled ==> at == -1 || 0 <= at <= |json|
    ensures settled ==> FindKey(json[from..], key) == if at == -1 then None else Some(json[at..])
    ensures !settled ==> from < next <= |json| && FindKey(json[from..], key) == FindKey(json[next..], key)
  {
    var pat := Quoted(key);
    var p := StrStr(json, from, pat);
    if p == -1 {
      FindKeyMisses(json, key, from);
      return true, -1, from;
    }
    next := p + |pat|;
    FindKeyTurn(json, key, from, p);
    at := AfterKeyAt(json, next);
    settled := at != -1;
  }

  /** `find_key`, as an index into the line; -1 for NULL.  Longer keys would not fit its buffer. */
  method FindKeyAt(json: string, key: string) returns (at: int)
    requires |key| + 2 < 40
    ensures at == -1 || 0 <= at <= |json|
    ensures FindKey(json, key) == if at == -1 then None else Some(json[at..])
  {
    var from := 0;
    assert json[0..] == json;
    while true
      invariant 0 <= from <= |json| && FindKey(json[from..], key) == FindKey(json, key)
      decreases |json| - from
    {
      var settled, found, next := Search(json, key, from);
      if settled {
        return found;
      }
      from := next;
    }
  }

  /** `get_str` into a buffer of `size` characters. */
  method ReadStr(json: string, key: string, size: nat) returns (dst: Option<string>)
    requires |key| + 2 < 40 && size > 0
    ensures dst == GetStr(json, key, size)
  {
    var p := FindKeyAt(json, key);
    if p == -1 || p == |json| || json[p] != '"' {
      return None;
    }
    assert json[p..][1..] == json[p + 1..];
    p := p + 1;
    ghost var start := p;
    var text := "";
    while p < |json| && json[p] != '"' && |text| + 1 < size
      invariant start <= p <= |json| && |text| + 1 <= size
      invariant text + StringUpTo(json[p..], size - 1 - |text|) == StringUpTo(json[start..], size - 1)
    {
      assert json[p..][1..] == json[p + 1..];
      assert text + ([json[p]] + StringUpTo(json[p + 1..], size - 2 - |text|))
          == (text + [json[p]]) + StringUpTo(json[p + 1..], size - 2 - |text|);
      text := text + [json[p]];
      p := p + 1;
    }
    assert StringUpTo(json[p..], size - 1 - |text|) == "" && text + "" == text;
    return Some(text);
  }

  /** `get_int` */
  method ReadInt(json: string, key: string) returns (v: Option<int>)
    requires |key| + 2 < 40
    ensures v == GetInt(json, key)
  {
    var p := FindKeyAt(json, key);
    if p == -1 || p == |json| || (json[p] != '-' && !IsDigit(json[p])) {
      return None;
    }
    return Some(Strtol(json[p..]));
  }

  /** `get_bool` */
  method ReadBool(json: string, key: string) returns (v: Option<int>)
    requires |key| + 2 < 40
    ensures v == GetBool(json, key)
  {
    var p := FindKeyAt(json, key);
    if p == -1 {
      return None;
    }
    var s := json[p..];
    if "true" <= s {
      return Some(1);
    }
    if "false" <= s {
      return Some(0);
    }
    return if LoneDigit(s, '1') then Some(1) else if LoneDigit(s, '0') then Some(0) else None;
  }

  /** `proto_parse` */
  method ProtoParse(line: string) returns (found: bool, out: Cmd)
    ensures (found, out) == Parse(line)
  {
    out := NO_CMD;
    var cmd := ReadStr(line, "cmd", 16);
    if cmd.None? {
      return false, out;
    }
    if cmd.value == "ring" {
      var id := ReadInt(line, "id");
      var r := ReadInt(line, "r");
      var g := ReadInt(line, "g");
      var b := ReadInt(line, "b");
      var brightness := ReadInt(line, "brightness");
      out := out.(kind := Ring, id := Or(id, -1), r := Or(r, -1), g := Or(g, -1), b := Or(b, -1),
                  brightness := Or(brightness, -1));
    } else if cmd.value == "lamp" {
      var on := ReadBool(line, "on");
      out := out.(kind := Lamp, on := Or(on, -1));
    } else if cmd.value == "config" {
      var ms := ReadInt(line, "debounce_ms");
      out := out.(kind := Config, debounceMs := Or(ms, -1));
    } else if cmd.value == "ping" {
      out := out.(kind := Ping);
    } else if cmd.value == "ota" {
      out := out.(kind := Ota);
    } else if cmd.value == "hello" {
      out := out.(kind := Hello);
    } else {
      out := out.(kind := Unknown);
    }
    return true, out;
  }
}

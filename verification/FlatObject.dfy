/** Field lookup on flat JSON objects whose strings contain no quotes. */
module FlatObject {
  import opened Protocol
  import opened Wrappers

  datatype Value = Str(text: string) | Bare(text: string)

  /** A field with the blanks before its key, around its colon and after its value. */
  datatype Field = Field(lead: string, key: string, pre: string, post: string, value: Value, trail: string)

  predicate QuoteFree(s: string) { '"' !in s }

  /** Spaces and tabs. */
  predicate Blank(s: string) { forall i :: 0 <= i < |s| ==> s[i] == ' ' || s[i] == '\t' }

  predicate FieldOk(f: Field) {
    && Blank(f.lead) && Blank(f.pre) && Blank(f.post) && Blank(f.trail)
    && QuoteFree(f.key) && QuoteFree(f.value.text)
    && (f.value.Bare? ==> f.value.text != "" && f.value.text[0] != ' ' && f.value.text[0] != '\t')
  }

  predicate FieldsOk(fs: seq<Field>) { forall i :: 0 <= i < |fs| ==> FieldOk(fs[i]) }

  function StripEnd(s: string): string {
    if s != "" && IsBlank(s[|s| - 1]) then StripEnd(s[..|s| - 1]) else s
  }

  function Trimmed(s: string): string { StripEnd(SkipBlanks(s)) }

  /** What can lie between the closing quote of a string and the opening quote of the next one. */
  predicate Imitable(key: string) {
    var t := Trimmed(key);
    t == ":" || t == "," || (|t| > 2 && t[0] == ':' && t[|t| - 1] == ',' && !Blank(t[1..|t| - 1]))
  }

  /** A key that no punctuation between two strings can be mistaken for. */
  predicate KeyOk(key: string) { QuoteFree(key) && !Imitable(key) }

  function ValueText(v: Value): string {
    if v.Str? then Quoted(v.text) else v.text
  }

  /** A list of fields up to the closing brace, and what follows it. */
  function Render(fs: seq<Field>, tail: string): string
    decreases |fs|, 2
  {
    if fs == [] then "}" + tail
    else fs[0].lead + Quoted(fs[0].key) + fs[0].pre + ":" + fs[0].post + FromValue(fs, tail)
  }

  /** The text from the value of the first field on. */
  function FromValue(fs: seq<Field>, tail: string): string
    requires fs != []
    decreases |fs|, 1
  {
    ValueText(fs[0].value) + AfterValue(fs, tail)
  }

  function AfterValue(fs: seq<Field>, tail: string): string
    requires fs != []
    decreases |fs|, 0
  {
    fs[0].trail + (if |fs| > 1 then "," else "") + Render(fs[1..], tail)
  }

  function Object(fs: seq<Field>, tail: string): string { "{" + Render(fs, tail) }

  /** The text from the value of the first field named `key` on. */
  function Lookup(fs: seq<Field>, key: string, tail: string): Option<string> {
    if fs == [] then None
    else if fs[0].key == key then Some(FromValue(fs, tail))
    else Lookup(fs[1..], key, tail)
  }

  // ---- how the search moves over the text ----

  lemma {:induction false} PassQuoteFree(u: string, s: string, key: string)
    requires QuoteFree(u)
    ensures FindKey(u + s, key) == FindKey(s, key)
  {
    if u == "" {
      assert u + s == s;
    } else {
      assert (u + s)[0] == u[0] != '"';
      assert (u + s)[1..] == u[1..] + s;
      PassQuoteFree(u[1..], s, key);
    }
  }

  /** A different string does not look like the key. */
  lemma OtherName(key: string, name: string, rest: string)
    requires QuoteFree(key) && QuoteFree(name) && key != name
    ensures !(key + "\"" <= name + "\"" + rest)
  {
    var k, t := key + "\"", name + "\"" + rest;
    if |key| < |name| {
      assert k[|key|] == '"' && t[|key|] == name[|key|];
    } else if |name| < |key| {
      assert t[|name|] == '"' && k[|name|] == key[|name|];
    } else {
      var i :| 0 <= i < |key| && key[i] != name[i];
      assert k[i] == key[i] && t[i] == name[i];
    }
  }

  /** Nor does text without a quote. */
  lemma NoQuote(key: string, rest: string)
    requires QuoteFree(rest)
    ensures !(key + "\"" <= rest)
  {
    if |key| < |rest| {
      assert (key + "\"")[|key|] == '"' != rest[|key|];
    }
  }

  lemma QuotedPrefix(key: string, s: string)
    ensures Quoted(key) <= "\"" + s <==> key + "\"" <= s
  {
    var p, t := Quoted(key), "\"" + s;
    assert p[1..] == key + "\"" && t[1..] == s;
    assert p == "\"" + p[1..];
    if key + "\"" <= s {
      assert s == (key + "\"") + s[|key| + 1..];
      assert t == p + s[|key| + 1..];
    }
    if p <= t {
      assert t == p + t[|p|..];
      assert s == (key + "\"") + t[|p|..];
    }
  }

  lemma PassString(name: string, rest: string, key: string)
    requires QuoteFree(key) && QuoteFree(name) && key != name && !(key + "\"" <= rest)
    ensures FindKey(Quoted(name) + rest, key) == FindKey(rest, key)
  {
    var inner := name + "\"" + rest;
    assert Quoted(name) + rest == "\"" + inner;
    OtherName(key, name, rest);
    QuotedPrefix(key, inner);
    assert ("\"" + inner)[1..] == inner;
    assert inner == name + ("\"" + rest);
    PassQuoteFree(name, "\"" + rest, key);
    QuotedPrefix(key, rest);
    assert ("\"" + rest)[1..] == rest;
  }

  lemma MeetKey(key: string, rest: string)
    ensures FindKey(Quoted(key) + rest, key) == if AfterKey(rest).Some? then AfterKey(rest) else FindKey(rest, key)
  {
    assert (Quoted(key) + rest)[|Quoted(key)|..] == rest;
  }

  lemma {:induction false} SkipsBlanks(u: string, s: string)
    requires Blank(u) && (s == "" || !IsBlank(s[0]))
    ensures SkipBlanks(u + s) == s
  {
    if u == "" {
      assert u + s == s;
    } else {
      assert (u + s)[1..] == u[1..] + s;
      SkipsBlanks(u[1..], s);
    }
  }

  lemma BlankIsQuoteFree(u: string)
    requires Blank(u)
    ensures QuoteFree(u)
  {
  }

  /** After the value come blanks, and then a comma or the closing brace. */
  lemma AfterValueShape(fs: seq<Field>, tail: string) returns (c: char, s: string)
    requires fs != []
    ensures (c == ',' || c == '}') && AfterValue(fs, tail) == fs[0].trail + [c] + s
    ensures |fs| > 1 ==> c == ',' && s == Render(fs[1..], tail)
    ensures |fs| == 1 ==> c == '}' && s == tail
  {
    if |fs| > 1 {
      c, s := ',', Render(fs[1..], tail);
    } else {
      c, s := '}', tail;
      assert fs[1..] == [];
    }
  }

  lemma FromKey(fs: seq<Field>, key: string, tail: string)
    requires fs != [] && FieldOk(fs[0])
    ensures var f := fs[0]; AfterKey(f.pre + ":" + f.post + FromValue(fs, tail)) == Some(FromValue(fs, tail))
  {
    var f, v := fs[0], FromValue(fs, tail);
    assert f.pre + ":" + f.post + v == f.pre + (":" + (f.post + v));
    SkipsBlanks(f.pre, ":" + (f.post + v));
    assert (":" + (f.post + v))[1..] == f.post + v;
    assert v != "" && !IsBlank(v[0]);
    SkipsBlanks(f.post, v);
  }

  // ---- punctuation ----

  lemma {:induction false} StripsEnd(s: string, u: string)
    requires Blank(u) && (s == "" || !IsBlank(s[|s| - 1]))
    ensures StripEnd(s + u) == s
    decreases |u|
  {
    if u == "" {
      assert s + u == s;
    } else {
      var n := |u| - 1;
      assert (s + u)[..|s + u| - 1] == s + u[..n];
      StripsEnd(s, u[..n]);
    }
  }

  lemma Trims(u: string, t: string, v: string)
    requires Blank(u) && Blank(v) && t != "" && !IsBlank(t[0]) && !IsBlank(t[|t| - 1])
    ensures Trimmed(u + t + v) == t
  {
    assert u + t + v == u + (t + v);
    SkipsBlanks(u, t + v);
    StripsEnd(t, v);
  }

  /** Between a key and its string value. */
  lemma ColonGap(key: string, f: Field)
    requires KeyOk(key) && FieldOk(f)
    ensures key != f.pre + ":" + f.post
  {
    Trims(f.pre, ":", f.post);
  }

  /** Between a string value and the next key. */
  lemma CommaGap(key: string, f: Field, g: Field)
    requires KeyOk(key) && FieldOk(f) && FieldOk(g)
    ensures key != f.trail + "," + g.lead
  {
    Trims(f.trail, ",", g.lead);
  }

  /** Between a key and the next one, with a bare value in the middle. */
  lemma BareGap(key: string, f: Field, g: Field)
    requires KeyOk(key) && FieldOk(f) && FieldOk(g) && f.value.Bare?
    ensures key != f.pre + ":" + f.post + f.value.text + f.trail + "," + g.lead
  {
    var m := f.post + f.value.text + f.trail;
    var t := ":" + m + ",";
    assert f.pre + ":" + f.post + f.value.text + f.trail + "," + g.lead == f.pre + t + g.lead;
    Trims(f.pre, t, g.lead);
    assert t[1..|t| - 1] == m && m[|f.post|] == f.value.text[0];
  }

  /** The text behind a value: up to the next key's opening quote, if there is a next key. */
  lemma AfterValueGap(fs: seq<Field>, tail: string) returns (more: string)
    requires fs != [] && FieldsOk(fs) && QuoteFree(tail)
    ensures if |fs| > 1 then AfterValue(fs, tail) == fs[0].trail + "," + fs[1].lead + "\"" + more
            else QuoteFree(AfterValue(fs, tail))
  {
    BlankIsQuoteFree(fs[0].trail);
    if |fs| > 1 {
      var g := fs[1];
      more := g.key + "\"" + g.pre + ":" + g.post + FromValue(fs[1..], tail);
      assert Render(fs[1..], tail) == g.lead + "\"" + more;
    } else {
      more := "";
      assert fs[1..] == [];
    }
  }

  /** The search passes over a field with another key, whatever its value. */
  lemma PassField(fs: seq<Field>, key: string, tail: string)
    requires fs != [] && FieldsOk(fs) && KeyOk(key) && fs[0].key != key && QuoteFree(tail)
    ensures FindKey(Quoted(fs[0].key) + (fs[0].pre + ":" + fs[0].post + FromValue(fs, tail)), key)
         == FindKey(AfterValue(fs, tail), key)
  {
    var f, v := fs[0], FromValue(fs, tail);
    var gap := f.pre + ":" + f.post;
    BlankIsQuoteFree(f.pre);
    BlankIsQuoteFree(f.post);
    BehindKey(fs, key, tail);
    PassString(f.key, gap + v, key);
    PassQuoteFree(gap, v, key);
    PassValue(fs, key, tail);
  }

  lemma QuoteAhead(gap: string, text: string, after: string)
    ensures gap + (Quoted(text) + after) == gap + "\"" + (text + "\"" + after)
  {
  }

  lemma WideGap(gap: string, text: string, trail: string, lead: string, more: string)
    ensures gap + (text + (trail + "," + lead + "\"" + more)) == gap + text + trail + "," + lead + "\"" + more
  {
  }

  lemma BehindKey(fs: seq<Field>, key: string, tail: string)
    requires fs != [] && FieldsOk(fs) && KeyOk(key) && QuoteFree(tail)
    ensures !(key + "\"" <= fs[0].pre + ":" + fs[0].post + FromValue(fs, tail))
  {
    var f, after := fs[0], AfterValue(fs, tail);
    var gap := f.pre + ":" + f.post;
    BlankIsQuoteFree(f.pre);
    BlankIsQuoteFree(f.post);
    if f.value.Str? {
      ColonGap(key, f);
      QuoteAhead(gap, f.value.text, after);
      OtherName(key, gap, f.value.text + "\"" + after);
    } else {
      BehindBare(fs, key, tail, gap);
    }
  }

  lemma BehindBare(fs: seq<Field>, key: string, tail: string, gap: string)
    requires fs != [] && FieldsOk(fs) && KeyOk(key) && QuoteFree(tail) && fs[0].value.Bare?
    requires gap == fs[0].pre + ":" + fs[0].post && QuoteFree(gap)
    ensures !(key + "\"" <= gap + FromValue(fs, tail))
  {
    var f := fs[0];
    var more := AfterValueGap(fs, tail);
    if |fs| > 1 {
      BareGap(key, f, fs[1]);
      BlankIsQuoteFree(f.trail);
      BlankIsQuoteFree(fs[1].lead);
      WideGap(gap, f.value.text, f.trail, fs[1].lead, more);
      OtherName(key, gap + f.value.text + f.trail + "," + fs[1].lead, more);
    } else {
      NoQuote(key, gap + FromValue(fs, tail));
    }
  }

  lemma BehindString(fs: seq<Field>, key: string, tail: string)
    requires fs != [] && FieldsOk(fs) && KeyOk(key) && QuoteFree(tail)
    ensures !(key + "\"" <= AfterValue(fs, tail))
  {
    var more := AfterValueGap(fs, tail);
    if |fs| > 1 {
      CommaGap(key, fs[0], fs[1]);
      BlankIsQuoteFree(fs[0].trail);
      BlankIsQuoteFree(fs[1].lead);
      OtherName(key, fs[0].trail + "," + fs[1].lead, more);
    } else {
      NoQuote(key, AfterValue(fs, tail));
    }
  }

  /** A string value that equals the key: no colon follows it. */
  lemma KeyAsValue(fs: seq<Field>, key: string, tail: string)
    requires fs != [] && FieldOk(fs[0])
    ensures FindKey(Quoted(key) + AfterValue(fs, tail), key) == FindKey(AfterValue(fs, tail), key)
  {
    var c, s := AfterValueShape(fs, tail);
    MeetKey(key, AfterValue(fs, tail));
    assert AfterValue(fs, tail) == fs[0].trail + ([c] + s);
    SkipsBlanks(fs[0].trail, [c] + s);
  }

  lemma PassValue(fs: seq<Field>, key: string, tail: string)
    requires fs != [] && FieldsOk(fs) && KeyOk(key) && QuoteFree(tail)
    ensures FindKey(FromValue(fs, tail), key) == FindKey(AfterValue(fs, tail), key)
  {
    var f, after := fs[0], AfterValue(fs, tail);
    if f.value.Bare? {
      PassQuoteFree(f.value.text, after, key);
    } else if f.value.text == key {
      KeyAsValue(fs, key, tail);
    } else {
      BehindString(fs, key, tail);
      PassString(f.value.text, after, key);
    }
  }

  lemma {:induction false} LookupInRender(fs: seq<Field>, key: string, tail: string)
    requires FieldsOk(fs) && KeyOk(key) && QuoteFree(tail)
    ensures FindKey(Render(fs, tail), key) == Lookup(fs, key, tail)
    decreases |fs|
  {
    if fs == [] {
      assert "}" + tail == ("}" + tail) + "";
      PassQuoteFree("}" + tail, "", key);
    } else {
      var f := fs[0];
      var rest := f.pre + ":" + f.post + FromValue(fs, tail);
      assert Render(fs, tail) == f.lead + (Quoted(f.key) + rest);
      BlankIsQuoteFree(f.lead);
      PassQuoteFree(f.lead, Quoted(f.key) + rest, key);
      if f.key == key {
        FromKey(fs, key, tail);
        MeetKey(key, rest);
      } else {
        PassField(fs, key, tail);
        PassToNext(fs, key, tail);
        LookupInRender(fs[1..], key, tail);
      }
    }
  }

  lemma PassToNext(fs: seq<Field>, key: string, tail: string)
    requires fs != [] && FieldOk(fs[0])
    ensures FindKey(AfterValue(fs, tail), key) == FindKey(Render(fs[1..], tail), key)
  {
    var u := fs[0].trail + (if |fs| > 1 then "," else "");
    BlankIsQuoteFree(fs[0].trail);
    PassQuoteFree(u, Render(fs[1..], tail), key);
  }

  /**
   On any flat object, with its fields in any order and blanks anywhere between tokens, the search
   lands on the value of the first field with the requested key, even when string values equal the
   key; and it finds nothing exactly when no field has that key.
   */
  lemma LookupInObject(fs: seq<Field>, key: string, tail: string)
    requires FieldsOk(fs) && KeyOk(key) && QuoteFree(tail)
    ensures FindKey(Object(fs, tail), key) == Lookup(fs, key, tail)
    ensures FindKey(Object(fs, tail), key).None? <==> forall i :: 0 <= i < |fs| ==> fs[i].key != key
  {
    PassQuoteFree("{", Render(fs, tail), key);
    LookupInRender(fs, key, tail);
    LookupMisses(fs, key, tail);
  }

  lemma {:induction false} LookupMisses(fs: seq<Field>, key: string, tail: string)
    ensures Lookup(fs, key, tail).None? <==> forall i :: 0 <= i < |fs| ==> fs[i].key != key
    decreases |fs|
  {
    if fs != [] {
      LookupMisses(fs[1..], key, tail);
      if fs[0].key != key && (forall i :: 0 <= i < |fs[1..]| ==> fs[1..][i].key != key) {
        forall i | 0 <= i < |fs|
          ensures fs[i].key != key
        {
          assert i > 0 ==> fs[i] == fs[1..][i - 1];
        }
      }
      if forall i :: 0 <= i < |fs| ==> fs[i].key != key {
        forall i | 0 <= i < |fs[1..]|
          ensures fs[1..][i].key != key
        {
          assert fs[1..][i] == fs[i + 1];
        }
      }
    }
  }

  // ---- the keys that are mistaken ----

  /** None of the keys that the parser looks up is. */
  lemma ProgramKeysOk(key: string)
    requires key in ["cmd", "id", "r", "g", "b", "brightness", "on", "debounce_ms"]
    ensures KeyOk(key)
  {
    assert key[0] != ':' && key[0] != ',' && !IsBlank(key[0]);
    assert SkipBlanks(key) == key && !IsBlank(key[|key| - 1]);
  }

  lemma {:induction false} StripEndSplits(s: string) returns (v: string)
    ensures s == StripEnd(s) + v && Blank(v)
  {
    if s != "" && IsBlank(s[|s| - 1]) {
      var w := StripEndSplits(s[..|s| - 1]);
      v := w + [s[|s| - 1]];
      assert s == s[..|s| - 1] + [s[|s| - 1]];
    } else {
      v := "";
      assert s == s + "";
    }
  }

  lemma {:induction false} SkipBlanksSplits(s: string) returns (u: string)
    ensures s == u + SkipBlanks(s) && Blank(u)
  {
    if s != "" && IsBlank(s[0]) {
      var w := SkipBlanksSplits(s[1..]);
      u := [s[0]] + w;
      assert s == [s[0]] + s[1..];
    } else {
      u := "";
      assert s == "" + s;
    }
  }

  lemma TrimSplits(s: string) returns (u: string, v: string)
    ensures s == u + Trimmed(s) + v && Blank(u) && Blank(v)
  {
    u := SkipBlanksSplits(s);
    v := StripEndSplits(SkipBlanks(s));
    assert u + (Trimmed(s) + v) == u + Trimmed(s) + v;
  }

  /** A match that begins at a closing quote is taken for a key if a colon comes next. */
  lemma Misled(name: string, key: string, rest: string)
    requires QuoteFree(name) && QuoteFree(key) && name != key && AfterKey(rest).Some?
    ensures FindKey("\"" + (name + (Quoted(key) + rest)), key).Some?
  {
    var behind := Quoted(key) + rest;
    assert name + behind == name + "\"" + (key + "\"" + rest);
    OtherName(key, name, key + "\"" + rest);
    QuotedPrefix(key, name + behind);
    assert ("\"" + (name + behind))[1..] == name + behind;
    PassQuoteFree(name, behind, key);
    MeetKey(key, rest);
  }

  lemma ColonAhead(rest: string)
    ensures AfterKey(":" + rest).Some?
  {
  }

  /** A key like a colon, blanks around it: `{"a":":"}` with those blanks around its colon. */
  lemma ColonMisleads(key: string, u: string, v: string) returns (fs: seq<Field>)
    requires QuoteFree(key) && key == u + ":" + v && Blank(u) && Blank(v)
    ensures FieldsOk(fs) && (forall i :: 0 <= i < |fs| ==> fs[i].key != key) && FindKey(Object(fs, ""), key).Some?
  {
    fs := [Field("", "a", u, v, Str(":"), "")];
    assert key[|u|] == ':' && "a" != key;
    ColonAhead("\"}");
    Misled("a", key, ":\"}");
    ColonText(fs, u, v);
    PassQuoteFree("{", "\"" + ("a" + (Quoted(key) + ":\"}")), key);
  }

  lemma ColonText(fs: seq<Field>, u: string, v: string)
    requires fs == [Field("", "a", u, v, Str(":"), "")]
    ensures Object(fs, "") == "{" + ("\"" + ("a" + (Quoted(u + ":" + v) + ":\"}")))
  {
    assert fs[1..] == [];
    assert AfterValue(fs, "") == "}";
    assert FromValue(fs, "") == "\":\"" + "}";
    assert Object(fs, "") == "{" + ("" + Quoted("a") + u + ":" + v + FromValue(fs, ""));
  }

  /** A key like a colon, a bare value and a comma: the next field's name begins with a colon. */
  lemma BareMisleads(key: string, u: string, m: string, v: string) returns (fs: seq<Field>)
    requires QuoteFree(key) && key == u + ":" + m + "," + v && Blank(u) && Blank(v) && !Blank(m)
    ensures FieldsOk(fs) && (forall i :: 0 <= i < |fs| ==> fs[i].key != key) && FindKey(Object(fs, ""), key).Some?
  {
    var post := SkipBlanksSplits(m);
    var bare := SkipBlanks(m);
    BareValue(key, u, m, v, post);
    BareKey(key, u, m, v, post);
    fs := [Field("", "a", u, post, Bare(bare), ""), Field(v, ":", "", "", Bare("1"), "")];
    BareText(fs, u, post, bare, v);
    LastMisleads("a", key);
  }

  lemma LastMisleads(name: string, key: string)
    requires QuoteFree(name) && QuoteFree(key) && name != key
    ensures FindKey("{" + ("\"" + (name + (Quoted(key) + (":" + "\":1}")))), key).Some?
  {
    ColonAhead("\":1}");
    Misled(name, key, ":" + "\":1}");
    PassQuoteFree("{", "\"" + (name + (Quoted(key) + (":" + "\":1}"))), key);
  }

  lemma BareKey(key: string, u: string, m: string, v: string, post: string)
    requires key == u + ":" + m + "," + v && m == post + SkipBlanks(m)
    ensures u + ":" + post + SkipBlanks(m) + "," + v == key && key != "a" && key != ":"
  {
    assert u + ":" + m == u + ":" + post + SkipBlanks(m);
    assert key[|u|] == ':' && |key| > 1;
  }

  lemma BareValue(key: string, u: string, m: string, v: string, post: string)
    requires QuoteFree(key) && key == u + ":" + m + "," + v && !Blank(m) && m == post + SkipBlanks(m) && Blank(post)
    ensures SkipBlanks(m) != "" && !IsBlank(SkipBlanks(m)[0]) && QuoteFree(SkipBlanks(m))
  {
    SkipsToNonBlank(m);
    assert post + "" == post;
    forall i | 0 <= i < |SkipBlanks(m)|
      ensures SkipBlanks(m)[i] != '"'
    {
      assert SkipBlanks(m)[i] == m[|post| + i] == key[|u| + 1 + |post| + i];
    }
  }

  lemma {:induction false} SkipsToNonBlank(m: string)
    ensures SkipBlanks(m) == "" || !IsBlank(SkipBlanks(m)[0])
  {
    if m != "" && IsBlank(m[0]) {
      SkipsToNonBlank(m[1..]);
    }
  }

  lemma BareText(fs: seq<Field>, u: string, post: string, bare: string, v: string)
    requires fs == [Field("", "a", u, post, Bare(bare), ""), Field(v, ":", "", "", Bare("1"), "")]
    ensures Object(fs, "") == "{" + ("\"" + ("a" + (Quoted(u + ":" + post + bare + "," + v) + (":" + "\":1}"))))
  {
    LastText(fs[1..], v);
    assert AfterValue(fs, "") == "" + "," + Render(fs[1..], "");
    assert FromValue(fs, "") == bare + AfterValue(fs, "");
    assert Object(fs, "") == "{" + ("" + Quoted("a") + u + ":" + post + FromValue(fs, ""));
  }

  lemma LastText(fs: seq<Field>, v: string)
    requires fs == [Field(v, ":", "", "", Bare("1"), "")]
    ensures Render(fs, "") == v + "\":\":1}"
  {
    assert fs[1..] == [];
    assert AfterValue(fs, "") == "}" && FromValue(fs, "") == "1" + "}";
    assert Render(fs, "") == v + Quoted(":") + "" + ":" + "" + FromValue(fs, "");
  }

  /** A key like a comma: a string value, and the next field's name begins with a colon. */
  lemma CommaMisleads(key: string, u: string, v: string) returns (fs: seq<Field>)
    requires QuoteFree(key) && key == u + "," + v && Blank(u) && Blank(v)
    ensures FieldsOk(fs) && (forall i :: 0 <= i < |fs| ==> fs[i].key != key) && FindKey(Object(fs, ""), key).Some?
  {
    fs := [Field("", "a", "", "", Str("b"), u), Field(v, ":", "", "", Bare("1"), "")];
    assert key[|u|] == ',' && "a" != key && "b" != key && ":" != key;
    CommaText(fs, u, v);
    StringMisleads(key, "b" + (Quoted(key) + (":" + "\":1}")));
  }

  lemma StringMisleads(key: string, inner: string)
    requires QuoteFree(key) && key != "a" && key != "b" && key != ":"
    requires inner == "b" + (Quoted(key) + (":" + "\":1}"))
    ensures FindKey("{" + (Quoted("a") + (":" + ("\"" + inner))), key).Some?
  {
    ColonAhead("\":1}");
    Misled("b", key, ":" + "\":1}");
    UpToString(key, inner);
  }

  /** The search reaches the string value behind `{"a":`. */
  lemma UpToString(key: string, inner: string)
    requires QuoteFree(key) && key != "a" && key != ":"
    ensures FindKey("{" + (Quoted("a") + (":" + ("\"" + inner))), key) == FindKey("\"" + inner, key)
  {
    var rest := ":" + ("\"" + inner);
    PassQuoteFree("{", Quoted("a") + rest, key);
    assert rest == ":" + "\"" + inner;
    OtherName(key, ":", inner);
    PassString("a", rest, key);
    PassQuoteFree(":", "\"" + inner, key);
  }

  lemma CommaText(fs: seq<Field>, u: string, v: string)
    requires fs == [Field("", "a", "", "", Str("b"), u), Field(v, ":", "", "", Bare("1"), "")]
    ensures Object(fs, "")
         == "{" + (Quoted("a") + (":" + ("\"" + ("b" + (Quoted(u + "," + v) + (":" + "\":1}"))))))
  {
    LastText(fs[1..], v);
    assert AfterValue(fs, "") == u + "," + Render(fs[1..], "");
    assert FromValue(fs, "") == "\"b\"" + AfterValue(fs, "");
    assert Object(fs, "") == "{" + ("" + Quoted("a") + "" + ":" + "" + FromValue(fs, ""));
  }

  /**
   The restriction on keys is exact: for every quote-free key that punctuation imitates there is an
   object without such a field in which the search finds one.
   */
  lemma ImitableKeysMislead(key: string) returns (fs: seq<Field>)
    requires QuoteFree(key) && Imitable(key)
    ensures FieldsOk(fs) && (forall i :: 0 <= i < |fs| ==> fs[i].key != key)
    ensures Lookup(fs, key, "").None? && FindKey(Object(fs, ""), key).Some?
  {
    var u, v := TrimSplits(key);
    var t := Trimmed(key);
    if t == ":" {
      fs := ColonMisleads(key, u, v);
    } else if t == "," {
      fs := CommaMisleads(key, u, v);
    } else {
      var m := t[1..|t| - 1];
      assert t == ":" + m + ",";
      assert u + (":" + m + ",") + v == u + ":" + m + "," + v;
      fs := BareMisleads(key, u, m, v);
    }
    LookupMisses(fs, key, "");
  }
}

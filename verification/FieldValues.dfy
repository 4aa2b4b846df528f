/** What the parser reads from the fields of flat objects, and decimal numbers. */
module FieldValues {
  import opened FlatObject
  import opened Protocol
  import opened Wrappers

  function DigitChar(d: nat): char
    requires d < 10
  {
    '0' + d as char
  }

  function DecimalNat(n: nat): (s: string)
    ensures s != ""
  {
    if n < 10 then [DigitChar(n)] else DecimalNat(n / 10) + [DigitChar(n % 10)]
  }

  /** `%d` */
  function Decimal(n: int): (s: string)
    ensures s != ""
  {
    if n < 0 then "-" + DecimalNat(-n) else DecimalNat(n)
  }

  // ---- decimal numbers ----

  predicate AllDigits(s: string) { forall i :: 0 <= i < |s| ==> IsDigit(s[i]) }

  lemma {:induction false} DecimalIsDigits(n: nat)
    ensures AllDigits(DecimalNat(n))
  {
    if n >= 10 {
      DecimalIsDigits(n / 10);
    }
  }

  lemma {:induction false} AccumulateConcat(u: string, s: string, a: nat)
    requires AllDigits(u)
    ensures Accumulate(u + s, a) == Accumulate(s, Accumulate(u, a))
    decreases |u|
  {
    if u == "" {
      assert u + s == s;
    } else {
      assert (u + s)[1..] == u[1..] + s;
      AccumulateConcat(u[1..], s, 10 * a + DigitValue(u[0]));
    }
  }

  /** Reading a printed number gives the number back, whatever non-digit follows. */
  lemma {:induction false} AccumulateDecimal(n: nat, rest: string)
    requires rest == "" || !IsDigit(rest[0])
    ensures Accumulate(DecimalNat(n) + rest, 0) == n
    decreases n
  {
    if n < 10 {
      assert (DecimalNat(n) + rest)[1..] == rest;
    } else {
      var last := [DigitChar(n % 10)];
      assert DecimalNat(n) + rest == DecimalNat(n / 10) + (last + rest);
      DecimalIsDigits(n / 10);
      AccumulateConcat(DecimalNat(n / 10), last + rest, 0);
      assert DecimalNat(n / 10) + "" == DecimalNat(n / 10);
      AccumulateDecimal(n / 10, "");
      assert (last + rest)[1..] == rest;
    }
  }

  lemma StrtolDecimal(n: int, rest: string)
    requires rest == "" || !IsDigit(rest[0])
    ensures Strtol(Decimal(n) + rest) == Saturate(n)
  {
    if n < 0 {
      StrtolNegative(-n, rest);
    } else {
      DecimalIsDigits(n);
      AccumulateDecimal(n, rest);
    }
  }

  lemma StrtolNegative(n: nat, rest: string)
    requires rest == "" || !IsDigit(rest[0])
    ensures Strtol("-" + DecimalNat(n) + rest) == Saturate(0 - n as int)
  {
    assert ("-" + DecimalNat(n) + rest)[1..] == DecimalNat(n) + rest;
    AccumulateDecimal(n, rest);
  }

  function Pow10(k: nat): nat { if k == 0 then 1 else 10 * Pow10(k - 1) }

  lemma {:induction false} DecimalLength(n: nat, k: nat)
    requires k > 0 && n < Pow10(k)
    ensures |DecimalNat(n)| <= k
  {
    if n >= 10 {
      DecimalLength(n / 10, k - 1);
    }
  }

  lemma DecimalIsPlain(n: int)
    ensures QuoteFree(Decimal(n)) && !IsBlank(Decimal(n)[0]) && (Decimal(n)[0] == '-' || IsDigit(Decimal(n)[0]))
  {
    if n < 0 {
      DecimalIsDigits(-n);
    } else {
      DecimalIsDigits(n);
    }
  }

  /** Saturation gives the 32-bit integer nearest to the number. */
  lemma SaturateIsNearest(n: int)
    ensures -0x8000_0000 <= Saturate(n) <= 0x7FFF_FFFF
    ensures (-0x8000_0000 <= n <= 0x7FFF_FFFF ==> Saturate(n) == n)
    ensures n > 0x7FFF_FFFF ==> Saturate(n) == 0x7FFF_FFFF
    ensures n < -0x8000_0000 ==> Saturate(n) == -0x8000_0000
  {
  }

  // ---- fields ----

  /** Field `i` is the first one with that key. */
  predicate IsFirst(fs: seq<Field>, key: string, i: nat) {
    i < |fs| && fs[i].key == key && forall j :: 0 <= j < i ==> fs[j].key != key
  }

  predicate NoField(fs: seq<Field>, key: string) { forall i :: 0 <= i < |fs| ==> fs[i].key != key }

  lemma {:induction false} LookupAt(fs: seq<Field>, key: string, i: nat, tail: string)
    requires IsFirst(fs, key, i)
    ensures Lookup(fs, key, tail) == Some(FromValue(fs[i..], tail))
    decreases i
  {
    if i == 0 {
      assert fs[0..] == fs;
    } else {
      assert fs[1..][i - 1..] == fs[i..];
      forall j | 0 <= j < i - 1
        ensures fs[1..][j].key != key
      {
        assert fs[1..][j] == fs[j + 1];
      }
      LookupAt(fs[1..], key, i - 1, tail);
    }
  }

  /** The search lands on the value of the field, and what follows it begins with a blank, comma or brace. */
  lemma FieldFound(fs: seq<Field>, key: string, i: nat, tail: string) returns (rest: string)
    requires FieldsOk(fs) && KeyOk(key) && QuoteFree(tail) && IsFirst(fs, key, i)
    ensures FindKey(Object(fs, tail), key) == Some(ValueText(fs[i].value) + rest)
    ensures rest != "" && (IsBlank(rest[0]) || rest[0] == ',' || rest[0] == '}')
  {
    LookupInObject(fs, key, tail);
    LookupAt(fs, key, i, tail);
    rest := AfterValue(fs[i..], tail);
    var c, s := AfterValueShape(fs[i..], tail);
    assert fs[i..][0] == fs[i];
    FrontOf(fs[i].trail, c, s);
  }

  lemma FrontOf(trail: string, c: char, s: string)
    requires Blank(trail) && (c == ',' || c == '}')
    ensures var rest := trail + [c] + s; IsBlank(rest[0]) || rest[0] == ',' || rest[0] == '}'
  {
  }

  lemma NotFound(fs: seq<Field>, key: string, tail: string)
    requires FieldsOk(fs) && KeyOk(key) && QuoteFree(tail) && NoField(fs, key)
    ensures FindKey(Object(fs, tail), key) == None
  {
    LookupInObject(fs, key, tail);
  }

  /** An integer field is read back, saturated to 32 bits; a string, or a word, is no integer. */
  lemma IntField(fs: seq<Field>, key: string, i: nat, n: int, tail: string)
    requires FieldsOk(fs) && KeyOk(key) && QuoteFree(tail) && IsFirst(fs, key, i)
    ensures fs[i].value == Bare(Decimal(n)) ==> GetInt(Object(fs, tail), key) == Some(Saturate(n))
    ensures NoNumber(fs[i].value) ==> GetInt(Object(fs, tail), key) == None
  {
    var rest := FieldFound(fs, key, i, tail);
    if fs[i].value == Bare(Decimal(n)) {
      IntText(Object(fs, tail), key, n, rest);
    }
    if NoNumber(fs[i].value) {
      WordIsNoInt(Object(fs, tail), key, fs[i].value, rest);
    }
  }

  /** A string, or a word that begins with neither a digit nor a minus sign. */
  predicate NoNumber(x: Value) { x.Str? || (x.text != "" && x.text[0] != '-' && !IsDigit(x.text[0])) }

  lemma WordIsNoInt(json: string, key: string, x: Value, rest: string)
    requires FindKey(json, key) == Some(ValueText(x) + rest) && NoNumber(x)
    ensures GetInt(json, key) == None
  {
    var t := ValueText(x);
    assert (t + rest)[0] == t[0] && (x.Str? ==> t[0] == '"');
  }

  lemma IntText(json: string, key: string, n: int, rest: string)
    requires FindKey(json, key) == Some(Decimal(n) + rest) && (rest == "" || !IsDigit(rest[0]))
    ensures GetInt(json, key) == Some(Saturate(n))
  {
    DecimalIsPlain(n);
    StrtolDecimal(n, rest);
  }

  /** Of a string field the first 15 characters are read. */
  lemma StringField(fs: seq<Field>, key: string, i: nat, tail: string)
    requires FieldsOk(fs) && KeyOk(key) && QuoteFree(tail) && IsFirst(fs, key, i)
    ensures GetStr(Object(fs, tail), key, 16) ==
      if fs[i].value.Str? then Some(UpTo(fs[i].value.text, 15)) else None
  {
    var rest := FieldFound(fs, key, i, tail);
    if fs[i].value.Str? {
      StringValue(Object(fs, tail), key, fs[i].value.text, rest);
    } else {
      BareValue(Object(fs, tail), key, fs[i].value.text, rest);
    }
  }

  function UpTo(s: string, n: nat): string { if |s| <= n then s else s[..n] }

  lemma BareValue(json: string, key: string, text: string, rest: string)
    requires FindKey(json, key) == Some(text + rest) && QuoteFree(text) && text != ""
    ensures GetStr(json, key, 16) == None
  {
    assert (text + rest)[0] == text[0];
  }

  lemma StringValue(json: string, key: string, text: string, rest: string)
    requires FindKey(json, key) == Some(Quoted(text) + rest) && QuoteFree(text)
    ensures GetStr(json, key, 16) == Some(UpTo(text, 15))
  {
    var v := Quoted(text) + rest;
    assert v[0] == '"' && v[1..] == text + ("\"" + rest);
    StopsAtQuote(text, rest, 15);
  }

  lemma {:induction false} StopsAtQuote(u: string, rest: string, room: nat)
    requires QuoteFree(u)
    ensures StringUpTo(u + ("\"" + rest), room) == UpTo(u, room)
    decreases |u|
  {
    if u == "" {
      assert u + ("\"" + rest) == "\"" + rest;
    } else if room > 0 {
      assert (u + ("\"" + rest))[1..] == u[1..] + ("\"" + rest);
      StopsAtQuote(u[1..], rest, room - 1);
      assert [u[0]] + UpTo(u[1..], room - 1) == UpTo(u, room);
    } else {
      assert UpTo(u, 0) == "";
    }
  }

  /** A boolean field is read from its word or its lone digit; another number or a string is none. */
  lemma BoolField(fs: seq<Field>, key: string, i: nat, tail: string)
    requires FieldsOk(fs) && KeyOk(key) && QuoteFree(tail) && IsFirst(fs, key, i)
    ensures var v := GetBool(Object(fs, tail), key);
            && (fs[i].value == Bare("true") || fs[i].value == Bare("1") ==> v == Some(1))
            && (fs[i].value == Bare("false") || fs[i].value == Bare("0") ==> v == Some(0))
            && (fs[i].value.Str? ==> v == None)
            && (forall n :: fs[i].value == Bare(Decimal(n)) && n != 0 && n != 1 ==> v == None)
  {
    var rest := FieldFound(fs, key, i, tail);
    var json, v := Object(fs, tail), fs[i].value;
    if v == Bare("true") {
      WordText(json, key, true, rest);
    } else if v == Bare("false") {
      WordText(json, key, false, rest);
    } else if v == Bare("1") || v == Bare("0") {
      DigitText(json, key, v.text, rest);
    } else if v.Str? {
      QuotedText(json, key, v.text, rest);
    }
    forall n | v == Bare(Decimal(n)) && n != 0 && n != 1
      ensures GetBool(json, key) == None
    {
      NumberText(json, key, n, rest);
    }
  }

  lemma WordText(json: string, key: string, on: bool, rest: string)
    requires FindKey(json, key) == Some((if on then "true" else "false") + rest)
    ensures GetBool(json, key) == Some(if on then 1 else 0)
  {
    assert !on ==> ("false" + rest)[0] == 'f';
  }

  lemma DigitText(json: string, key: string, text: string, rest: string)
    requires FindKey(json, key) == Some(text + rest) && (text == "1" || text == "0")
    requires rest != "" && !IsDigit(rest[0])
    ensures GetBool(json, key) == Some(if text == "1" then 1 else 0)
  {
    var s := text + rest;
    assert s[0] == text[0] && s[1] == rest[0];
  }

  lemma QuotedText(json: string, key: string, text: string, rest: string)
    requires FindKey(json, key) == Some(Quoted(text) + rest)
    ensures GetBool(json, key) == None
  {
    assert (Quoted(text) + rest)[0] == '"';
  }

  lemma NumberText(json: string, key: string, n: int, rest: string)
    requires FindKey(json, key) == Some(Decimal(n) + rest) && n != 0 && n != 1
    ensures GetBool(json, key) == None
  {
    var s := Decimal(n) + rest;
    DecimalIsPlain(n);
    assert s[0] == Decimal(n)[0];
    if 0 <= n < 10 {
      assert Decimal(n) == [DigitChar(n)];
    } else if n >= 10 {
      SecondDigit(n);
      assert s[1] == Decimal(n)[1];
    }
  }

  lemma SecondDigit(n: nat)
    requires n >= 10
    ensures |DecimalNat(n)| > 1 && IsDigit(DecimalNat(n)[1])
  {
    DecimalIsDigits(n);
  }
}

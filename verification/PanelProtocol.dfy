/** The host's command formatters, and their way through the device's parser. */
module PanelProtocol {
  import opened FieldValues
  import opened FlatObject
  import opened Protocol
  import opened Wrappers

  /** `_clamp8` on integers. */
  function Clamp8(v: int): int { if v < 0 then 0 else if v > 255 then 255 else v }

  /** Clamping gives the byte nearest to the value: values in range unchanged, others their limit. */
  lemma ClampIsNearest(v: int)
    ensures 0 <= Clamp8(v) <= 255
    ensures (0 <= v <= 255 ==> Clamp8(v) == v) && (v > 255 ==> Clamp8(v) == 255) && (v < 0 ==> Clamp8(v) == 0)
    ensures forall b :: 0 <= b <= 255 ==> Distance(Clamp8(v), v) <= Distance(b, v)
  {
  }

  function Distance(a: int, b: int): nat { if a < b then b - a else a - b }

  /** The text of the colour fields, from the value of `id` on. */
  function Colours(r: int, g: int, b: int, brightness: int): string {
    ",\"r\":" + (Decimal(Clamp8(r))
    + (",\"g\":" + (Decimal(Clamp8(g))
    + (",\"b\":" + (Decimal(Clamp8(b))
    + (",\"brightness\":" + (Decimal(Clamp8(brightness)) + "}")))))))
  }

  /** The line of `fmt_ring_cmd`, without and with its newline. */
  function RingLine(id: int, r: int, g: int, b: int, brightness: int): string {
    "{\"cmd\":\"ring\",\"id\":" + (Decimal(id) + Colours(r, g, b, brightness))
  }

  function FmtRingCmd(id: int, r: int, g: int, b: int, brightness: int): string {
    RingLine(id, r, g, b, brightness) + "\n"
  }

  function LampLine(on: bool): string {
    "{\"cmd\":\"lamp\",\"on\":" + (if on then "true" else "false") + "}"
  }

  function FmtLampCmd(on: bool): string { LampLine(on) + "\n" }

  // ---- the lines as flat objects ----

  function Plain(key: string, v: Value): Field { Field("", key, "", "", v, "") }

  function RingFields(id: int, r: int, g: int, b: int, brightness: int): seq<Field> {
    [Plain("cmd", Str("ring")), Plain("id", Bare(Decimal(id))), Plain("r", Bare(Decimal(Clamp8(r)))),
     Plain("g", Bare(Decimal(Clamp8(g)))), Plain("b", Bare(Decimal(Clamp8(b)))),
     Plain("brightness", Bare(Decimal(Clamp8(brightness))))]
  }

  /** What a plain field puts in front of the next ones. */
  function Label(key: string): string { Quoted(key) + ":" }

  lemma PlainShape(q: string, v: string, sep: string, rest: string)
    ensures "" + q + "" + ":" + "" + (v + ("" + sep + rest)) == (q + ":") + (v + (sep + rest))
  {
  }

  lemma RenderPlain(fs: seq<Field>, key: string, v: Value, rest: seq<Field>)
    requires fs == [Plain(key, v)] + rest
    ensures Render(fs, "") == Label(key) + (ValueText(v) + ((if rest != [] then "," else "") + Render(rest, "")))
  {
    assert fs[1..] == rest;
    var sep := if rest != [] then "," else "";
    assert AfterValue(fs, "") == "" + sep + Render(rest, "");
    assert FromValue(fs, "") == ValueText(v) + AfterValue(fs, "");
    assert Render(fs, "") == "" + Quoted(key) + "" + ":" + "" + FromValue(fs, "");
    PlainShape(Quoted(key), ValueText(v), if rest != [] then "," else "", Render(rest, ""));
  }

  lemma Glue(a: string, b: string, x: string)
    ensures a + (b + x) == (a + b) + x
  {
  }

  /** A bare value, the comma after it and the label of the next field. */
  lemma RenderNext(fs: seq<Field>, key: string, v: string, next: seq<Field>, nextKey: string, x: string)
    requires fs == [Plain(key, Bare(v))] + next && next != [] && Render(next, "") == Label(nextKey) + x
    ensures Render(fs, "") == Label(key) + (v + (("," + Label(nextKey)) + x))
  {
    RenderPlain(fs, key, Bare(v), next);
    Glue(",", Label(nextKey), x);
  }

  lemma Labels()
    ensures "," + Label("id") == ",\"id\":" && "," + Label("r") == ",\"r\":" && "," + Label("g") == ",\"g\":"
    ensures "," + Label("b") == ",\"b\":" && "," + Label("brightness") == ",\"brightness\":"
  {
  }

  lemma RenderBOn(vb: string, vl: string)
    ensures Render([Plain("b", Bare(vb)), Plain("brightness", Bare(vl))], "")
         == Label("b") + (vb + (",\"brightness\":" + (vl + "}")))
  {
    Labels();
    var last := [Plain("brightness", Bare(vl))];
    RenderPlain(last, "brightness", Bare(vl), []);
    assert Render([], "") == "}" && "" + "}" == "}";
    var fs := [Plain("b", Bare(vb)), Plain("brightness", Bare(vl))];
    assert fs == [Plain("b", Bare(vb))] + last;
    RenderNext(fs, "b", vb, last, "brightness", vl + "}");
  }

  lemma RenderIdOn(id: int, r: int, g: int, b: int, brightness: int)
    ensures Render(RingFields(id, r, g, b, brightness)[1..], "")
         == Label("id") + (Decimal(id) + Colours(r, g, b, brightness))
  {
    var fs := RingFields(id, r, g, b, brightness);
    var vr, vg, vb, vl := Decimal(Clamp8(r)), Decimal(Clamp8(g)), Decimal(Clamp8(b)), Decimal(Clamp8(brightness));
    Labels();
    RenderBOn(vb, vl);
    assert fs[4..] == [Plain("b", Bare(vb)), Plain("brightness", Bare(vl))];
    var x4 := vb + (",\"brightness\":" + (vl + "}"));
    RenderNext(fs[3..], "g", vg, fs[4..], "b", x4);
    var x3 := vg + (",\"b\":" + x4);
    RenderNext(fs[2..], "r", vr, fs[3..], "g", x3);
    var x2 := vr + (",\"g\":" + x3);
    RenderNext(fs[1..], "id", Decimal(id), fs[2..], "r", x2);
  }

  lemma RingLineIsObject(id: int, r: int, g: int, b: int, brightness: int)
    ensures RingLine(id, r, g, b, brightness) == Object(RingFields(id, r, g, b, brightness), "")
  {
    var fs, x := RingFields(id, r, g, b, brightness), Decimal(id) + Colours(r, g, b, brightness);
    RenderIdOn(id, r, g, b, brightness);
    RenderPlain(fs, "cmd", Str("ring"), fs[1..]);
    OpeningShape(x);
  }

  lemma OpeningShape(x: string)
    ensures "{" + (Label("cmd") + (Quoted("ring") + ("," + (Label("id") + x)))) == "{\"cmd\":\"ring\",\"id\":" + x
  {
    assert "{\"cmd\":\"ring\",\"id\":" == "{" + (Label("cmd") + (Quoted("ring") + ("," + Label("id"))));
  }

  // ---- what the parser finds ----

  lemma RingFieldsOk(id: int, r: int, g: int, b: int, brightness: int)
    ensures FieldsOk(RingFields(id, r, g, b, brightness))
  {
    DecimalIsPlain(id);
    DecimalIsPlain(Clamp8(r));
    DecimalIsPlain(Clamp8(g));
    DecimalIsPlain(Clamp8(b));
    DecimalIsPlain(Clamp8(brightness));
  }

  lemma ClampFits(v: int)
    ensures Saturate(Clamp8(v)) == Clamp8(v)
  {
  }

  /**
   The device parses what the host prints: a ring command with the clamped colours and brightness,
   and with the ring id itself for every id of 32 bits (any other id arrives saturated).
   */
  lemma RingLineParses(id: int, r: int, g: int, b: int, brightness: int)
    ensures Parse(RingLine(id, r, g, b, brightness))
         == (true, Cmd(Ring, Saturate(id), Clamp8(r), Clamp8(g), Clamp8(b), Clamp8(brightness), -1, -1))
  {
    RingLineIsObject(id, r, g, b, brightness);
    var line := Object(RingFields(id, r, g, b, brightness), "");
    RingFieldsRead(id, r, g, b, brightness);
    ParsesAsRing(line, Saturate(id), Clamp8(r), Clamp8(g), Clamp8(b), Clamp8(brightness));
  }

  /** What fits in a byte, and an id of 32 bits, is recovered as it was sent. */
  lemma RingLineRecovers(id: int, r: int, g: int, b: int, brightness: int)
    requires -0x8000_0000 <= id < 0x8000_0000
    requires 0 <= r <= 255 && 0 <= g <= 255 && 0 <= b <= 255 && 0 <= brightness <= 255
    ensures Parse(RingLine(id, r, g, b, brightness)) == (true, Cmd(Ring, id, r, g, b, brightness, -1, -1))
  {
    RingLineParses(id, r, g, b, brightness);
    ClampIsNearest(r);
    ClampIsNearest(g);
    ClampIsNearest(b);
    ClampIsNearest(brightness);
  }

  lemma ParsesAsRing(line: string, id: int, r: int, g: int, b: int, brightness: int)
    requires GetStr(line, "cmd", 16) == Some("ring")
    requires GetInt(line, "id") == Some(id) && GetInt(line, "r") == Some(r) && GetInt(line, "g") == Some(g)
    requires GetInt(line, "b") == Some(b) && GetInt(line, "brightness") == Some(brightness)
    ensures Parse(line) == (true, Cmd(Ring, id, r, g, b, brightness, -1, -1))
  {
  }

  lemma RingFieldsRead(id: int, r: int, g: int, b: int, brightness: int)
    ensures var line := Object(RingFields(id, r, g, b, brightness), "");
            && GetStr(line, "cmd", 16) == Some("ring") && GetInt(line, "id") == Some(Saturate(id))
            && GetInt(line, "r") == Some(Clamp8(r)) && GetInt(line, "g") == Some(Clamp8(g))
            && GetInt(line, "b") == Some(Clamp8(b)) && GetInt(line, "brightness") == Some(Clamp8(brightness))
  {
    var fs := RingFields(id, r, g, b, brightness);
    RingFieldsOk(id, r, g, b, brightness);
    RingVerb(fs);
    RingField(fs, 1, id);
    RingField(fs, 2, Clamp8(r));
    RingField(fs, 3, Clamp8(g));
    RingField(fs, 4, Clamp8(b));
    RingField(fs, 5, Clamp8(brightness));
    ClampFits(r);
    ClampFits(g);
    ClampFits(b);
    ClampFits(brightness);
  }

  lemma RingVerb(fs: seq<Field>)
    requires FieldsOk(fs) && fs != [] && fs[0] == Plain("cmd", Str("ring"))
    ensures GetStr(Object(fs, ""), "cmd", 16) == Some("ring")
  {
    ProgramKeysOk("cmd");
    StringField(fs, "cmd", 0, "");
  }

  const RING_KEYS := ["cmd", "id", "r", "g", "b", "brightness"]

  lemma RingKeys()
    ensures forall i, j :: 0 <= i < j < |RING_KEYS| ==> RING_KEYS[i] != RING_KEYS[j]
    ensures forall i :: 0 <= i < |RING_KEYS| ==> KeyOk(RING_KEYS[i])
  {
    assert "r"[0] != "g"[0] && "r"[0] != "b"[0] && "g"[0] != "b"[0];
  }

  lemma RingField(fs: seq<Field>, i: nat, n: int)
    requires FieldsOk(fs) && |fs| == |RING_KEYS| && forall k :: 0 <= k < |fs| ==> fs[k].key == RING_KEYS[k]
    requires i < |fs| && fs[i] == Plain(RING_KEYS[i], Bare(Decimal(n)))
    ensures GetInt(Object(fs, ""), RING_KEYS[i]) == Some(Saturate(n))
  {
    RingKeys();
    IntField(fs, RING_KEYS[i], i, n, "");
  }

  lemma LampLineIsObject(on: bool)
    ensures LampLine(on) == Object(LampFields(on), "")
  {
    var fs, v := LampFields(on), if on then "true" else "false";
    RenderPlain(fs[1..], "on", Bare(v), []);
    RenderPlain(fs, "cmd", Str("lamp"), fs[1..]);
    assert Render([], "") == "}";
    LampShape(v + ("" + "}"));
  }

  function LampFields(on: bool): seq<Field> {
    [Plain("cmd", Str("lamp")), Plain("on", Bare(if on then "true" else "false"))]
  }

  lemma LampShape(x: string)
    ensures "{" + (Label("cmd") + (Quoted("lamp") + ("," + (Label("on") + x)))) == "{\"cmd\":\"lamp\",\"on\":" + x
  {
    assert "{\"cmd\":\"lamp\",\"on\":" == "{" + (Label("cmd") + (Quoted("lamp") + ("," + Label("on"))));
  }

  /** The lamp command comes through as 1 or 0. */
  lemma LampLineParses(on: bool)
    ensures Parse(LampLine(on)) == (true, NO_CMD.(kind := Lamp, on := if on then 1 else 0))
  {
    LampLineIsObject(on);
    ProgramKeysOk("cmd");
    StringField(LampFields(on), "cmd", 0, "");
    LampFieldRead(on);
    ParsesAsLamp(Object(LampFields(on), ""), if on then 1 else 0);
  }

  lemma ParsesAsLamp(line: string, on: int)
    requires GetStr(line, "cmd", 16) == Some("lamp") && GetBool(line, "on") == Some(on)
    ensures Parse(line) == (true, NO_CMD.(kind := Lamp, on := on))
  {
  }

  lemma LampFieldRead(on: bool)
    ensures GetBool(Object(LampFields(on), ""), "on") == Some(if on then 1 else 0)
  {
    ProgramKeysOk("on");
    BoolField(LampFields(on), "on", 1, "");
  }

  /** For a 32-bit id the line fits the device's line buffer. */
  lemma RingLineFits(id: int, r: int, g: int, b: int, brightness: int)
    requires LONG_MIN <= id <= LONG_MAX
    ensures |RingLine(id, r, g, b, brightness)| <= 72
  {
    assert Pow10(5) == 100000 && Pow10(10) == 10000000000 && Pow10(3) == 1000;
    DecimalLength(if id < 0 then -id else id, 10);
    DecimalLength(Clamp8(r), 3);
    DecimalLength(Clamp8(g), 3);
    DecimalLength(Clamp8(b), 3);
    DecimalLength(Clamp8(brightness), 3);
  }
}

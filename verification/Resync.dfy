/** Both ends find the next token behind stray bytes. */
module Resync {
  import opened Bytes
  import opened Recovery
  import opened Tokens
  import opened Wrappers

  /** The bytes of an input, without the pauses. */
  function BytesOf(rx: seq<RxItem>): seq<byte> {
    if rx == [] then [] else ByteOf(rx[0]) + BytesOf(rx[1..])
  }

  function ByteOf(item: RxItem): seq<byte> { if item.Byte? then [item.b] else [] }

  /** With `waited` milliseconds of silence behind it, no silence of the input lasts for the timeout. */
  predicate Calm(rx: seq<RxItem>, waited: nat, timeout: nat)
    decreases |rx|
  {
    rx == [] ||
    match rx[0]
    case Quiet(ms) => waited + ms < timeout && Calm(rx[1..], waited + ms, timeout)
    case Byte(_) => Calm(rx[1..], 0, timeout)
  }

  lemma {:induction false} BytesOfItems(bs: seq<byte>)
    ensures BytesOf(Items(bs)) == bs
  {
    if bs != [] {
      assert Items(bs)[1..] == Items(bs[1..]);
      BytesOfItems(bs[1..]);
    }
  }

  lemma Glue(a: seq<byte>, b: seq<byte>, c: seq<byte>)
    ensures a + (b + c) == a + b + c
  {
  }

  lemma {:induction false} BytesOfConcat(a: seq<RxItem>, b: seq<RxItem>)
    ensures BytesOf(a + b) == BytesOf(a) + BytesOf(b)
  {
    if a == [] {
      assert a + b == b;
    } else {
      assert (a + b)[1..] == a[1..] + b;
      BytesOfConcat(a[1..], b);
      Glue(ByteOf(a[0]), BytesOf(a[1..]), BytesOf(b));
    }
  }

  lemma {:induction false} EndsInByte(rx: seq<RxItem>)
    ensures rx != [] && rx[|rx| - 1].Byte? ==> BytesOf(rx) != []
  {
    if |rx| > 1 {
      EndsInByte(rx[1..]);
    }
  }

  /**
   `ReadCommand`, having taken the bytes `c`, stops at the first token of the whole stream, if no
   silence times it out before that token's end.
   */
  lemma {:induction false} FindsFirst(c: seq<byte>, head: seq<RxItem>, tail: seq<RxItem>, s: seq<byte>, k: nat,
                                      waited: nat, timeout: nat)
    requires Calm(head, waited, timeout) && s == c + BytesOf(head) + BytesOf(tail)
    requires |c| < k <= |c + BytesOf(head)| && FirstMatch(s, k, COMMANDS)
    ensures var (tok, rest) := ReadCommand(head + tail, Last4(c), waited, timeout);
            && tok == Some(s[k - 4..k]) && BytesOf(rest) == s[k..]
            && (k == |c + BytesOf(head)| && head[|head| - 1].Byte? ==> rest == tail)
    decreases |head|
  {
    assert head != [];
    assert (head + tail)[0] == head[0] && (head + tail)[1..] == head[1..] + tail;
    match head[0]
    case Quiet(ms) => FindsFirst(c, head[1..], tail, s, k, waited + ms, timeout);
    case Byte(b) =>
      var d := c + [b];
      BytesOfConcat(head[1..], tail);
      assert s == d + BytesOf(head[1..]) + BytesOf(tail) == d + BytesOf(head[1..] + tail);
      Slide(c, b);
      WindowTest(c, b, COMMANDS);
      MatchPrefix(d, BytesOf(head[1..] + tail), |d|, COMMANDS);
      if |d| == k {
        assert Last4(d) == s[k - 4..k];
        if k == |c + BytesOf(head)| && head[|head| - 1].Byte? {
          EndsInByte(head[1..]);
          assert head[1..] + tail == tail;
        }
      } else {
        FindsFirst(d, head[1..], tail, s, k, 0, timeout);
      }
  }

  /** A token other than the one sent lies across the end of `junk` and the start of `m`. */
  ghost predicate Straddles(junk: seq<byte>, m: seq<byte>, j: nat, tokens: seq<seq<byte>>) {
    1 <= j <= 3 && MatchAt(junk + m, |junk| + j, tokens)
  }

  lemma FirstMatchBehindJunk(junk: seq<byte>, m: seq<byte>, after: seq<byte>, tokens: seq<seq<byte>>)
    requires |m| == 4 && m in tokens && NoMatch(junk, tokens)
    ensures FirstMatch(junk + m + after, |junk| + 4, tokens) <==> forall j :: !Straddles(junk, m, j, tokens)
  {
    var s := junk + m;
    assert s[|junk|..] == m;
    MatchPrefix(s, after, |s|, tokens);
    forall k | k < |s|
      ensures MatchAt(s + after, k, tokens) <==> exists j :: j == k - |junk| && Straddles(junk, m, j, tokens)
    {
      MatchPrefix(s, after, k, tokens);
      if k <= |junk| {
        MatchPrefix(junk, m, k, tokens);
      } else {
        assert Straddles(junk, m, k - |junk|, tokens) == MatchAt(s, k, tokens);
      }
    }
    forall j | Straddles(junk, m, j, tokens)
      ensures MatchAt(s + after, |junk| + j, tokens)
    {
    }
  }

  /** The token that lies across the boundary ends with the first `j` bytes of `m`. */
  lemma StraddlingToken(junk: seq<byte>, m: seq<byte>, j: nat, tokens: seq<seq<byte>>) returns (t: seq<byte>)
    requires |m| == 4 && Straddles(junk, m, j, tokens)
    ensures t in tokens && |t| == 4 && t[4 - j] == m[0] && t[3] == m[j - 1]
    ensures |junk| >= 4 - j && t[..4 - j] == junk[|junk| - (4 - j)..]
  {
    t := (junk + m)[|junk| + j - 4..|junk| + j];
  }

  lemma OnlyCommandOverlap(t: seq<byte>, m: seq<byte>, j: nat)
    requires t in COMMANDS && m in COMMANDS && 1 <= j <= 3 && t[4 - j] == m[0] && t[3] == m[j - 1]
    ensures t == RP2B && m == BEGN && j == 1
  {
  }

  const RP2: seq<byte> := [0x52, 0x50, 0x32]
  const DON: seq<byte> := [0x44, 0x4F, 0x4E]

  predicate EndsWith(s: seq<byte>, t: seq<byte>) {
    |t| <= |s| && s[|s| - |t|..] == t
  }

  lemma CommandOverlap(junk: seq<byte>, m: seq<byte>)
    requires m in COMMANDS
    ensures (exists j :: Straddles(junk, m, j, COMMANDS)) <==> m == BEGN && EndsWith(junk, RP2)
  {
    if j :| Straddles(junk, m, j, COMMANDS) {
      var t := StraddlingToken(junk, m, j, COMMANDS);
      OnlyCommandOverlap(t, m, j);
      assert t[..3] == RP2;
    }
    if m == BEGN && EndsWith(junk, RP2) {
      assert (junk + m)[|junk| - 3..|junk| + 1] == RP2 + [m[0]] == RP2B;
      assert Straddles(junk, m, 1, COMMANDS);
    }
  }

  /**
   One read with the bytes `heard` behind it, none of them in a command: the next command is found
   and nothing after it is consumed.  The one exception is BEGN behind "RP2", which is taken for the
   RP2B of a SYNC.
   */
  lemma ReadResyncs(heard: seq<byte>, head: seq<RxItem>, tail: seq<RxItem>, junk: seq<byte>, m: seq<byte>,
                    timeout: nat)
    requires Calm(head, 0, timeout) && heard + BytesOf(head) == junk + m && |heard| <= |junk|
    requires m in COMMANDS && NoMatch(junk, COMMANDS)
    ensures var (tok, rest) := ReadCommand(head + tail, Last4(heard), 0, timeout);
            if m == BEGN && EndsWith(junk, RP2)
            then tok == Some(RP2B) && BytesOf(rest) == m[1..] + BytesOf(tail)
            else && tok == Some(m) && BytesOf(rest) == BytesOf(tail)
                 && (head != [] && head[|head| - 1].Byte? ==> rest == tail)
  {
    var after := BytesOf(tail);
    var s := junk + m + after;
    CommandOverlap(junk, m);
    FirstMatchBehindJunk(junk, m, after, COMMANDS);
    if m == BEGN && EndsWith(junk, RP2) {
      FirstIsSync(junk, after);
      FindsFirst(heard, head, tail, s, |junk| + 1, 0, timeout);
      assert s[|junk| + 1..] == m[1..] + after;
    } else {
      FindsFirst(heard, head, tail, s, |junk| + 4, 0, timeout);
      assert s[|junk|..|junk| + 4] == m && s[|junk| + 4..] == after;
    }
  }

  // ---- the loop around the reads ----

  /** Reads until one returns a command; a read that times out leaves nothing to the next one. */
  function NextCommand(rx: seq<RxItem>, w: seq<byte>, waited: nat, timeout: nat): (Option<seq<byte>>, seq<RxItem>)
    decreases |rx|
  {
    var (tok, rest) := ReadCommand(rx, w, waited, timeout);
    if tok.Some? || rest == [] then (tok, rest) else NextCommand(rest, [], 0, timeout)
  }

  /** The bytes heard since the last time-out, `c` before `rx` begins. */
  function Heard(c: seq<byte>, rx: seq<RxItem>, waited: nat, timeout: nat): seq<byte>
    decreases |rx|
  {
    if rx == [] then c
    else
      match rx[0]
      case Quiet(ms) =>
        if waited + ms >= timeout then Heard([], rx[1..], 0, timeout) else Heard(c, rx[1..], waited + ms, timeout)
      case Byte(b) => Heard(c + [b], rx[1..], 0, timeout)
  }

  lemma NoMatchBehind(c: seq<byte>, s: seq<byte>, tokens: seq<seq<byte>>)
    requires NoMatch(c + s, tokens)
    ensures NoMatch(s, tokens)
  {
    forall k
      ensures !MatchAt(s, k, tokens)
    {
      if 4 <= k <= |s| {
        assert (c + s)[|c| + k - 4..|c| + k] == s[k - 4..k];
        assert !MatchAt(c + s, |c| + k, tokens);
      }
    }
  }

  lemma NextOnQuiet(rx: seq<RxItem>, w: seq<byte>, waited: nat, timeout: nat)
    requires |rx| > 1 && rx[0].Quiet?
    ensures NextCommand(rx, w, waited, timeout) ==
      if waited + rx[0].ms >= timeout then NextCommand(rx[1..], [], 0, timeout)
      else NextCommand(rx[1..], w, waited + rx[0].ms, timeout)
  {
  }

  lemma NextOnByte(rx: seq<RxItem>, c: seq<byte>, waited: nat, timeout: nat)
    requires |rx| > 1 && rx[0].Byte? && !MatchAt(c + [rx[0].b], |c| + 1, COMMANDS)
    ensures NextCommand(rx, Last4(c), waited, timeout) == NextCommand(rx[1..], Last4(c + [rx[0].b]), 0, timeout)
  {
    Slide(c, rx[0].b);
    WindowTest(c, rx[0].b, COMMANDS);
  }

  lemma JunkOnQuiet(c: seq<byte>, ms: nat, rest: seq<RxItem>)
    requires NoMatch(c + BytesOf([Quiet(ms)] + rest), COMMANDS)
    ensures NoMatch(c + BytesOf(rest), COMMANDS) && NoMatch([] + BytesOf(rest), COMMANDS)
  {
    assert ([Quiet(ms)] + rest)[1..] == rest && [] + BytesOf(rest) == BytesOf(rest);
    NoMatchBehind(c, BytesOf(rest), COMMANDS);
  }

  lemma JunkOnByte(c: seq<byte>, b: byte, rest: seq<RxItem>)
    requires NoMatch(c + BytesOf([Byte(b)] + rest), COMMANDS)
    ensures NoMatch(c + [b] + BytesOf(rest), COMMANDS) && !MatchAt(c + [b], |c| + 1, COMMANDS)
  {
    assert ([Byte(b)] + rest)[1..] == rest;
    assert c + ([b] + BytesOf(rest)) == c + [b] + BytesOf(rest);
    MatchPrefix(c + [b], BytesOf(rest), |c| + 1, COMMANDS);
  }

  /** No read of `rx` comes upon a command. */
  ghost predicate Passes(c: seq<byte>, rx: seq<RxItem>, waited: nat, timeout: nat)
    decreases |rx|
  {
    rx != [] ==>
      match rx[0]
      case Quiet(ms) =>
        if waited + ms >= timeout then Passes([], rx[1..], 0, timeout) else Passes(c, rx[1..], waited + ms, timeout)
      case Byte(b) => !MatchAt(c + [b], |c| + 1, COMMANDS) && Passes(c + [b], rx[1..], 0, timeout)
  }

  lemma {:induction false} JunkPasses(c: seq<byte>, before: seq<RxItem>, waited: nat, timeout: nat)
    requires NoMatch(c + BytesOf(before), COMMANDS)
    ensures Passes(c, before, waited, timeout) && NoMatch(Heard(c, before, waited, timeout), COMMANDS)
    decreases |before|
  {
    if before == [] {
      assert c + [] == c;
    } else {
      var rest := before[1..];
      assert before == [before[0]] + rest;
      match before[0] {
        case Quiet(ms) =>
          JunkOnQuiet(c, ms, rest);
          if waited + ms >= timeout {
            JunkPasses([], rest, 0, timeout);
          } else {
            JunkPasses(c, rest, waited + ms, timeout);
          }
        case Byte(b) =>
          JunkOnByte(c, b, rest);
          JunkPasses(c + [b], rest, 0, timeout);
      }
    }
  }

  /** Stray bytes and pauses of any length are passed over; only what was heard since matters. */
  lemma {:induction false} PassJunk(c: seq<byte>, before: seq<RxItem>, tail: seq<RxItem>, waited: nat, timeout: nat)
    requires Passes(c, before, waited, timeout) && tail != [] && tail[0].Byte?
    ensures NextCommand(before + tail, Last4(c), waited, timeout)
         == NextCommand(tail, Last4(Heard(c, before, waited, timeout)), 0, timeout)
    decreases |before|, 1
  {
    if before == [] {
      assert before + tail == tail;
    } else if before[0].Quiet? {
      PassPause(c, before, tail, waited, timeout);
    } else {
      PassByte(c, before, tail, waited, timeout);
    }
  }

  lemma {:induction false} PassPause(c: seq<byte>, before: seq<RxItem>, tail: seq<RxItem>, waited: nat, timeout: nat)
    requires Passes(c, before, waited, timeout) && tail != [] && tail[0].Byte?
    requires before != [] && before[0].Quiet?
    ensures NextCommand(before + tail, Last4(c), waited, timeout)
         == NextCommand(tail, Last4(Heard(c, before, waited, timeout)), 0, timeout)
    decreases |before|, 0
  {
    PassFirst(before, tail);
    NextOnQuiet(before + tail, Last4(c), waited, timeout);
    if waited + before[0].ms >= timeout {
      PassJunk([], before[1..], tail, 0, timeout);
    } else {
      PassJunk(c, before[1..], tail, waited + before[0].ms, timeout);
    }
  }

  lemma {:induction false} PassByte(c: seq<byte>, before: seq<RxItem>, tail: seq<RxItem>, waited: nat, timeout: nat)
    requires Passes(c, before, waited, timeout) && tail != [] && tail[0].Byte?
    requires before != [] && before[0].Byte?
    ensures NextCommand(before + tail, Last4(c), waited, timeout)
         == NextCommand(tail, Last4(Heard(c, before, waited, timeout)), 0, timeout)
    decreases |before|, 0
  {
    PassFirst(before, tail);
    NextOnByte(before + tail, c, waited, timeout);
    PassJunk(c + [before[0].b], before[1..], tail, 0, timeout);
  }

  lemma PassFirst(before: seq<RxItem>, tail: seq<RxItem>)
    requires before != []
    ensures (before + tail)[0] == before[0] && (before + tail)[1..] == before[1..] + tail
  {
  }

  /**
   Resynchronisation of the receiver.  Stray bytes and pauses of any length come first, then the
   command `m` without a silence that times it out: the loop returns it and consumes nothing after
   it, unless it is BEGN and the bytes heard since the last time-out end in "RP2"; then it returns
   RP2B.
   */
  lemma ReceiverResyncs(before: seq<RxItem>, sent: seq<RxItem>, after: seq<RxItem>, m: seq<byte>, timeout: nat)
    requires m in COMMANDS && NoMatch(BytesOf(before), COMMANDS)
    requires sent != [] && sent[0].Byte? && BytesOf(sent) == m && Calm(sent, 0, timeout)
    ensures var (tok, rest) := NextCommand(before + (sent + after), [], 0, timeout);
            var mistaken := m == BEGN && EndsWith(Heard([], before, 0, timeout), RP2);
            && (tok == Some(m) && BytesOf(rest) == BytesOf(after) <==> !mistaken)
            && (mistaken ==> tok == Some(RP2B) && BytesOf(rest) == m[1..] + BytesOf(after))
  {
    var heard := Heard([], before, 0, timeout);
    assert [] + BytesOf(before) == BytesOf(before);
    JunkPasses([], before, 0, timeout);
    PassJunk([], before, sent + after, 0, timeout);
    ReadResyncs(heard, sent, after, heard, m, timeout);
  }

  lemma FirstIsSync(junk: seq<byte>, after: seq<byte>)
    requires EndsWith(junk, RP2) && NoMatch(junk, COMMANDS)
    ensures FirstMatch(junk + BEGN + after, |junk| + 1, COMMANDS)
    ensures (junk + BEGN + after)[|junk| - 3..|junk| + 1] == RP2B
  {
    var s := junk + BEGN + after;
    assert s[|junk| - 3..|junk| + 1] == RP2 + [BEGN[0]] == RP2B == COMMANDS[0];
    assert s == junk + (BEGN + after);
    forall k | k < |junk| + 1
      ensures !MatchAt(s, k, COMMANDS)
    {
      MatchPrefix(junk, BEGN + after, k, COMMANDS);
    }
  }

  /** The host's final answer is found the same way; the one exception is ECRC behind "DON". */
  lemma VerdictResyncs(junk: seq<byte>, m: seq<byte>, after: seq<byte>)
    requires m in [DONE, ECRC] && NoMatch(junk, [DONE, ECRC])
    ensures FirstMatch(junk + m + after, |junk| + 4, [DONE, ECRC]) <==> !(m == ECRC && EndsWith(junk, DON))
  {
    var tokens := [DONE, ECRC];
    FirstMatchBehindJunk(junk, m, after, tokens);
    if j :| Straddles(junk, m, j, tokens) {
      var t := StraddlingToken(junk, m, j, tokens);
      assert t == DONE && j == 1;
      assert t[..3] == DON;
    }
    if m == ECRC && EndsWith(junk, DON) {
      assert (junk + m)[|junk| - 3..|junk| + 1] == DON + [m[0]] == DONE;
      assert Straddles(junk, m, 1, tokens);
    }
  }

  /** Every other answer the host waits for is found behind any stray bytes at all. */
  lemma AnswerResyncs(junk: seq<byte>, m: seq<byte>, after: seq<byte>, tokens: seq<seq<byte>>)
    requires tokens == [BLOK] || tokens == [OKER] || tokens == [DACK, DNAK] || tokens == [BYE_]
    requires m in tokens && NoMatch(junk, tokens)
    ensures FirstMatch(junk + m + after, |junk| + 4, tokens)
  {
    FirstMatchBehindJunk(junk, m, after, tokens);
    if j :| Straddles(junk, m, j, tokens) {
      var t := StraddlingToken(junk, m, j, tokens);
      assert false;
    }
  }
}

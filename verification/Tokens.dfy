/** The four-byte tokens of the update protocol and the search for one in a byte stream. */
module Tokens {
  import opened Bytes

  // Host to device.
  const RP2B: seq<byte> := [0x52, 0x50, 0x32, 0x42]
  const BEGN: seq<byte> := [0x42, 0x45, 0x47, 0x4E]
  const DATA: seq<byte> := [0x44, 0x41, 0x54, 0x41]
  const END_: seq<byte> := [0x45, 0x4E, 0x44, 0x21]
  const GO__: seq<byte> := [0x47, 0x4F, 0x21, 0x21]

  // Device to host.
  const BLOK: seq<byte> := [0x42, 0x4C, 0x4F, 0x4B]
  const OKER: seq<byte> := [0x4F, 0x4B, 0x45, 0x52]
  const ERSZ: seq<byte> := [0x45, 0x52, 0x53, 0x5A]
  const DACK: seq<byte> := [0x44, 0x41, 0x43, 0x4B]
  const DNAK: seq<byte> := [0x44, 0x4E, 0x41, 0x4B]
  const DONE: seq<byte> := [0x44, 0x4F, 0x4E, 0x45]
  const ECRC: seq<byte> := [0x45, 0x43, 0x52, 0x43]
  const BYE_: seq<byte> := [0x42, 0x59, 0x45, 0x21]

  const COMMANDS: seq<seq<byte>> := [RP2B, BEGN, DATA, END_, GO__]

  /** One byte a character. */
  function Spelled(s: string): seq<byte>
    requires forall i :: 0 <= i < |s| ==> s[i] as int < 0x100
  {
    seq(|s|, i requires 0 <= i < |s| => s[i] as int)
  }

  /** The tokens as both programs spell them. */
  lemma TokensSpelled()
    ensures RP2B == Spelled("RP2B") && BEGN == Spelled("BEGN") && DATA == Spelled("DATA")
    ensures END_ == Spelled("END!") && GO__ == Spelled("GO!!")
    ensures BLOK == Spelled("BLOK") && OKER == Spelled("OKER") && ERSZ == Spelled("ERSZ")
    ensures DACK == Spelled("DACK") && DNAK == Spelled("DNAK") && DONE == Spelled("DONE")
    ensures ECRC == Spelled("ECRC") && BYE_ == Spelled("BYE!")
  {
  }

  /** A token of `tokens` ends at position `k` of `s`. */
  predicate MatchAt(s: seq<byte>, k: int, tokens: seq<seq<byte>>) {
    4 <= k <= |s| && s[k - 4..k] in tokens
  }

  /** No token ends anywhere in `s`. */
  ghost predicate NoMatch(s: seq<byte>, tokens: seq<seq<byte>>) {
    forall k :: !MatchAt(s, k, tokens)
  }

  /** The first token of `s` ends at `k`. */
  ghost predicate FirstMatch(s: seq<byte>, k: nat, tokens: seq<seq<byte>>) {
    MatchAt(s, k, tokens) && forall j :: j < k ==> !MatchAt(s, j, tokens)
  }

  /** The sliding window: the last four bytes taken, or all of them while there are fewer. */
  function Last4(s: seq<byte>): (w: seq<byte>)
    ensures |w| <= 4
  {
    if |s| <= 4 then s else s[|s| - 4..]
  }

  lemma Slide(s: seq<byte>, b: byte)
    ensures Last4(Last4(s) + [b]) == Last4(s + [b])
  {
  }

  /** Extending a stream does not disturb the positions already passed. */
  lemma MatchPrefix(s: seq<byte>, t: seq<byte>, k: int, tokens: seq<seq<byte>>)
    requires k <= |s|
    ensures MatchAt(s + t, k, tokens) == MatchAt(s, k, tokens)
  {
    if 4 <= k {
      assert (s + t)[k - 4..k] == s[k - 4..k];
    }
  }

  /** The window test after one more byte decides whether a token ends here. */
  lemma WindowTest(s: seq<byte>, b: byte, tokens: seq<seq<byte>>)
    ensures MatchAt(s + [b], |s| + 1, tokens) <==> |Last4(s + [b])| == 4 && Last4(s + [b]) in tokens
  {
    var t := s + [b];
    if |t| >= 4 {
      assert Last4(t) == t[|t| - 4..|t|];
    }
  }
}

/**
 * The JavaScript string built-ins the upload route relies on, with the
 * semantics the route sees: `lastIndexOf` answers -1 when the character is
 * absent, `substring` clamps its bounds into the string and swaps them when
 * they are reversed, `split` on a one-character separator always yields at
 * least one piece, and `toLowerCase` is taken on ASCII letters only.
 */
module JsStrings {

  /** `s.lastIndexOf(c)`: the position of the last `c` in `s`, or -1. */
  function LastIndexOf(s: string, c: char): (r: int)
    ensures -1 <= r < |s|
    ensures r >= 0 ==> s[r] == c
    ensures forall j :: r < j < |s| ==> s[j] != c
  {
    if |s| == 0 then -1
    else if s[|s| - 1] == c then |s| - 1
    else LastIndexOf(s[..|s| - 1], c)
  }

  /** Index clamping done by `substring`: negative to 0, past the end to the length. */
  function Clamp(i: int, n: nat): (r: nat)
    ensures r <= n
    ensures 0 <= i <= n ==> r == i
  {
    if i < 0 then 0 else if i > n then n else i
  }

  /** `s.substring(start, end)`. */
  function Substring(s: string, start: int, end: int): (r: string)
    ensures |r| <= |s|
    ensures Clamp(start, |s|) <= Clamp(end, |s|) ==> r == s[Clamp(start, |s|)..Clamp(end, |s|)]
    ensures Clamp(end, |s|) < Clamp(start, |s|) ==> r == s[Clamp(end, |s|)..Clamp(start, |s|)]
  {
    var a, b := Clamp(start, |s|), Clamp(end, |s|);
    if a <= b then s[a..b] else s[b..a]
  }

  /** `s.substring(start)`. */
  function SubstringFrom(s: string, start: int): (r: string)
    ensures r == s[Clamp(start, |s|)..]
  {
    Substring(s, start, |s|)
  }

  /** `toLowerCase` on one character, ASCII letters only. */
  function LowerChar(c: char): (r: char)
    ensures 'A' <= c <= 'Z' ==> r as int == c as int + 32
    ensures !('A' <= c <= 'Z') ==> r == c
  {
    if 'A' <= c <= 'Z' then (c as int + 32) as char else c
  }

  /** `s.toLowerCase()`, ASCII letters only: the length is preserved. */
  function ToLower(s: string): (r: string)
    ensures |r| == |s|
    ensures forall i :: 0 <= i < |s| ==> r[i] == LowerChar(s[i])
  {
    seq(|s|, i requires 0 <= i < |s| => LowerChar(s[i]))
  }

  /**
   * `parts.join(sep)` for a one-character separator: the pieces with a
   * separator between each two neighbours.
   */
  function Join(parts: seq<string>, sep: char): string
  {
    if |parts| == 0 then ""
    else if |parts| == 1 then parts[0]
    else Join(parts[..|parts| - 1], sep) + [sep] + parts[|parts| - 1]
  }

  /**
   * `s.split(sep)` for a one-character separator: the pieces between
   * separators, the empty ones included. They are described here from the
   * right: the pieces before the last separator, then the text after it.
   */
  function Split(s: string, sep: char): (parts: seq<string>)
    ensures |parts| >= 1
    ensures forall p :: p in parts ==> sep !in p
    decreases |s|
  {
    var k := LastIndexOf(s, sep);
    var after := s[k + 1..];
    assert sep !in after by {
      forall j | 0 <= j < |after| ensures after[j] != sep {
        assert after[j] == s[k + 1 + j];
      }
    }
    if k < 0 then [s] else Split(s[..k], sep) + [after]
  }

  /** Joining the pieces of a split with the same separator gives the string back. */
  lemma {:induction false} JoinSplit(s: string, sep: char)
    ensures Join(Split(s, sep), sep) == s
    decreases |s|
  {
    var k := LastIndexOf(s, sep);
    if k >= 0 {
      var init := Split(s[..k], sep);
      JoinSplit(s[..k], sep);
      JoinSnoc(init, s[k + 1..], sep);
      assert s == s[..k] + [sep] + s[k + 1..];
    }
  }

  /** `Join` of at least one piece followed by one more. */
  lemma JoinSnoc(init: seq<string>, last: string, sep: char)
    requires |init| >= 1
    ensures Join(init + [last], sep) == Join(init, sep) + [sep] + last
  {
    assert (init + [last])[..|init|] == init;
  }

  /** The last piece of a split is the text after the last separator. */
  lemma SplitLastPiece(s: string, sep: char)
    ensures var parts := Split(s, sep);
            parts[|parts| - 1] == s[LastIndexOf(s, sep) + 1..]
  {
  }

  /**
   * All pieces of a split but the last, joined again, are the text before the
   * last separator, or the empty string when there is none.
   */
  lemma SplitInitPieces(s: string, sep: char)
    ensures var parts := Split(s, sep);
            var k := LastIndexOf(s, sep);
            Join(parts[..|parts| - 1], sep) == if k < 0 then "" else s[..k]
  {
    var k := LastIndexOf(s, sep);
    if k >= 0 {
      var init := Split(s[..k], sep);
      assert (init + [s[k + 1..]])[..|init|] == init;
      JoinSplit(s[..k], sep);
    }
  }

  /** The text up to a position past a separator at `k`. */
  lemma BeforeLastSeparator(s: string, sep: char, k: int, rest: string, kr: int)
    requires 0 <= k < |s| && s[k] == sep
    requires rest == s[k + 1..] && 0 <= kr < |rest|
    ensures s[..kr + k + 1] == s[..k] + [sep] + rest[..kr]
  {
  }

  /** A position holding `c` with no `c` after it is the last index of `c`. */
  lemma LastIndexOfAt(s: string, c: char, p: nat)
    requires p < |s| && s[p] == c
    requires forall j :: p < j < |s| ==> s[j] != c
    ensures LastIndexOf(s, c) == p
  {
  }

  /** The last `c` of a suffix that holds one is the last `c` of the whole string. */
  lemma LastIndexOfInSuffix(s: string, c: char, m: nat)
    requires m <= |s| && LastIndexOf(s[m..], c) >= 0
    ensures LastIndexOf(s, c) == m + LastIndexOf(s[m..], c)
  {
    var kr := LastIndexOf(s[m..], c);
    assert s[m + kr] == s[m..][kr];
    forall j | m + kr < j < |s| ensures s[j] != c {
      assert s[j] == s[m..][j - m];
    }
    LastIndexOfAt(s, c, m + kr);
  }
}

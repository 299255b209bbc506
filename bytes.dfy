/**
  Bytes, optional values, and the line structure of a byte stream as
  bufio's ReadBytes('\n') sees it: a line is every byte up to and including
  the next '\n'; bytes after the last '\n' never form a line.
 */
module Bytes {

  datatype Option<T> = None | Some(value: T)

  newtype byte = b: int | 0 <= b < 256

  const LF: byte := 10

  /** The bytes of an ASCII string literal. */
  function Ascii(s: string): (r: seq<byte>)
    requires forall i | 0 <= i < |s| :: s[i] as int < 256
    ensures |r| == |s|
    ensures forall i | 0 <= i < |s| :: r[i] as int == s[i] as int
  {
    seq(|s|, i requires 0 <= i < |s| => s[i] as int as byte)
  }

  /** bytes.HasPrefix */
  predicate HasPrefix(s: seq<byte>, prefix: seq<byte>)
    ensures HasPrefix(s, prefix) ==> |prefix| <= |s| && s == prefix + s[|prefix|..]
  {
    |prefix| <= |s| && s[..|prefix|] == prefix
  }

  /** The position of the first '\n' in s, if there is one. */
  function NewlineIndex(s: seq<byte>): (r: Option<nat>)
    ensures r.Some? ==> r.value < |s|
  {
    if |s| == 0 then None
    else if s[0] == LF then Some(0)
    else match NewlineIndex(s[1..])
      case None => None
      case Some(j) => Some(j + 1)
  }

  /** NewlineIndex finds the first '\n', and finds none only when there is none. */
  lemma {:induction false} NewlineIndexIsFirst(s: seq<byte>)
    ensures NewlineIndex(s).Some? ==> s[NewlineIndex(s).value] == LF
    ensures NewlineIndex(s).Some? ==> forall k | 0 <= k < NewlineIndex(s).value :: s[k] != LF
    ensures NewlineIndex(s).None? ==> forall k | 0 <= k < |s| :: s[k] != LF
  {
    if |s| > 0 && s[0] != LF {
      NewlineIndexIsFirst(s[1..]);
      assert forall k | 1 <= k < |s| :: s[k] == s[1..][k - 1];
    }
  }

  /** A complete line: it ends with '\n' and holds no other '\n'. */
  predicate IsLine(l: seq<byte>) {
    |l| > 0 && l[|l| - 1] == LF && forall k | 0 <= k < |l| - 1 :: l[k] != LF
  }

  /**
    What ReadBytes('\n') returns on the unread bytes s: the first line of s,
    or None (an error in Go) when s holds no '\n'.
   */
  function NextLine(s: seq<byte>): (r: Option<seq<byte>>)
    ensures r.Some? ==> 0 < |r.value| <= |s| && r.value == s[..|r.value|]
  {
    match NewlineIndex(s)
    case None => None
    case Some(j) => Some(s[..j + 1])
  }

  /** The complete lines of s, in order. */
  function Lines(s: seq<byte>): (ls: seq<seq<byte>>)
    ensures |ls| <= |s|
    decreases |s|
  {
    match NextLine(s)
    case None => []
    case Some(l) => [l] + Lines(s[|l|..])
  }

  /** The lines of ls laid end to end. */
  function Concat(ls: seq<seq<byte>>): seq<byte> {
    if |ls| == 0 then [] else ls[0] + Concat(ls[1..])
  }

  lemma {:induction false} ConcatSnoc(ls: seq<seq<byte>>, l: seq<byte>)
    ensures Concat(ls + [l]) == Concat(ls) + l
  {
    if |ls| == 0 {
      assert ls + [l] == [l];
    } else {
      assert (ls + [l])[1..] == ls[1..] + [l];
      ConcatSnoc(ls[1..], l);
    }
  }

  /**
    Laying the first k lines of s end to end gives back a prefix of s:
    lines are taken from the stream verbatim and without gaps.
   */
  lemma {:induction false} LinesArePrefix(s: seq<byte>, k: nat)
    requires k <= |Lines(s)|
    ensures |Concat(Lines(s)[..k])| <= |s|
    ensures Concat(Lines(s)[..k]) == s[..|Concat(Lines(s)[..k])|]
    decreases |s|
  {
    if k > 0 {
      var l := NextLine(s).value;
      var t := s[|l|..];
      assert Lines(s) == [l] + Lines(t);
      assert Lines(s)[..k][1..] == Lines(t)[..k - 1];
      LinesArePrefix(t, k - 1);
      var c := Concat(Lines(t)[..k - 1]);
      assert Concat(Lines(s)[..k]) == l + c;
      assert s == l + t;
      assert s[..|l| + |c|] == l + t[..|c|];
    }
  }

  /**
    NextLine is ReadBytes('\n'): the first complete line of s, and an error
    exactly when s holds no '\n'.
   */
  lemma NextLineIsFirstLine(s: seq<byte>)
    ensures NextLine(s).Some? ==> IsLine(NextLine(s).value) && NextLine(s).value == s[..|NextLine(s).value|]
    ensures NextLine(s).None? <==> forall k | 0 <= k < |s| :: s[k] != LF
  {
    NewlineIndexIsFirst(s);
  }

  /** Every element of Lines(s) is a complete line. */
  lemma {:induction false} LinesAreLines(s: seq<byte>)
    ensures forall i | 0 <= i < |Lines(s)| :: IsLine(Lines(s)[i])
    decreases |s|
  {
    match NextLine(s)
    case None =>
    case Some(l) =>
      NextLineIsFirstLine(s);
      LinesAreLines(s[|l|..]);
  }

  /**
    Lines(s) takes every complete line of s: past the lines it returns
    there is no '\n' left, which is when ReadBytes('\n') first fails.
   */
  lemma {:induction false} LinesComplete(s: seq<byte>)
    ensures |Concat(Lines(s))| <= |s|
    ensures forall k | |Concat(Lines(s))| <= k < |s| :: s[k] != LF
    decreases |s|
  {
    LinesArePrefix(s, |Lines(s)|);
    assert Lines(s)[..|Lines(s)|] == Lines(s);
    NextLineIsFirstLine(s);
    match NextLine(s)
    case None =>
    case Some(l) =>
      LinesComplete(s[|l|..]);
      assert Concat(Lines(s)) == l + Concat(Lines(s[|l|..]));
      assert forall k | |Concat(Lines(s))| <= k < |s| :: s[k] == s[|l|..][k - |l|];
  }

  /** Reading line l at position p of s leaves the lines after it. */
  lemma LinesAt(s: seq<byte>, p: nat, l: seq<byte>)
    requires p <= |s| && NextLine(s[p..]) == Some(l)
    ensures p + |l| <= |s|
    ensures Lines(s[p..]) == [l] + Lines(s[p + |l|..])
  {
    assert s[p..][|l|..] == s[p + |l|..];
  }

  /** Reading line l at the end of the prefix p of s extends the prefix. */
  lemma PrefixGrows(s: seq<byte>, p: seq<byte>, l: seq<byte>)
    requires |p| <= |s| && p == s[..|p|] && NextLine(s[|p|..]) == Some(l)
    ensures |p + l| <= |s| && p + l == s[..|p + l|]
  {
    assert l == s[|p|..][..|l|];
  }
}

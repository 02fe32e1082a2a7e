/**
  Basename derivation: the destination name is the part of the filename
  segment after its last path separator, '/' or '\'.
 */
module Filename {
  import opened FileInfo

  const Slash: byte := 0x2F
  const Backslash: byte := 0x5C

  predicate IsSeparator(c: byte) {
    c == Slash || c == Backslash
  }

  /** Index of the last separator in `s`, or -1 when `s` holds none. */
  function LastSeparator(s: seq<byte>): (k: int)
    ensures -1 <= k < |s|
    ensures k >= 0 ==> IsSeparator(s[k])
    ensures forall j :: k < j < |s| ==> !IsSeparator(s[j])
  {
    if |s| == 0 then -1
    else if IsSeparator(s[|s| - 1]) then |s| - 1
    else LastSeparator(s[..|s| - 1])
  }

  /** The basename of a filename segment: a suffix of it that holds no
      separator and is either all of it or preceded by a separator. */
  function Basename(s: seq<byte>): (b: seq<byte>)
    ensures |b| <= |s| && b == s[|s| - |b|..]
    ensures forall j :: 0 <= j < |b| ==> !IsSeparator(b[j])
    ensures |b| == |s| || IsSeparator(s[|s| - |b| - 1])
  {
    s[LastSeparator(s) + 1..]
  }

  /** The three properties of LastSeparator's contract determine it. */
  lemma LastSeparatorUnique(s: seq<byte>, k: int)
    requires -1 <= k < |s|
    requires k >= 0 ==> IsSeparator(s[k])
    requires forall j :: k < j < |s| ==> !IsSeparator(s[j])
    ensures k == LastSeparator(s)
  {
  }

  /** The three properties of Basename's contract determine it. */
  lemma BasenameUnique(s: seq<byte>, b: seq<byte>)
    requires |b| <= |s| && b == s[|s| - |b|..]
    requires forall j :: 0 <= j < |b| ==> !IsSeparator(b[j])
    requires |b| == |s| || IsSeparator(s[|s| - |b| - 1])
    ensures b == Basename(s)
  {
    var k := |s| - |b| - 1;
    forall j | k < j < |s| ensures !IsSeparator(s[j]) {
      assert s[j] == b[j - k - 1];
    }
    LastSeparatorUnique(s, k);
  }

  /** A segment without separators is its own basename. */
  lemma WholeSegmentWithoutSeparator(s: seq<byte>)
    requires forall j :: 0 <= j < |s| ==> !IsSeparator(s[j])
    ensures Basename(s) == s
  {
    BasenameUnique(s, s);
  }

  /** A segment that ends in a separator, or is empty, has an empty basename. */
  lemma EmptyAfterTrailingSeparator(s: seq<byte>)
    requires |s| == 0 || IsSeparator(s[|s| - 1])
    ensures Basename(s) == []
  {
    BasenameUnique(s, []);
  }

  /** Bytes of a string whose characters all fit in one octet. */
  function Latin1(s: string): (b: seq<byte>)
    requires forall i :: 0 <= i < |s| ==> s[i] as int < 256
    ensures |b| == |s| && forall i :: 0 <= i < |s| ==> b[i] == s[i] as int
  {
    seq(|s|, i requires 0 <= i < |s| => s[i] as int)
  }

  /** The segment "/a/b/c.txt" is written to "c.txt". */
  lemma BasenameOfPath()
    ensures Basename(Latin1("/a/b/c.txt")) == Latin1("c.txt")
  {
    var s, b := Latin1("/a/b/c.txt"), Latin1("c.txt");
    assert b == s[5..];
    BasenameUnique(s, b);
  }

  /** The scan of the filename segment `buffer[..n]` (main.cpp:68-71): a
      cursor starts at the last byte and moves back until it reaches a
      separator or falls off the front; the basename starts one past it. */
  method FindBasenameStart(buffer: array<byte>, n: nat) returns (start: nat)
    requires n <= buffer.Length
    ensures start <= n
    ensures forall j :: start <= j < n ==> !IsSeparator(buffer[j])
    ensures start == 0 || IsSeparator(buffer[start - 1])
    ensures start == LastSeparator(buffer[..n]) + 1
    ensures buffer[start..n] == Basename(buffer[..n])
  {
    var cursor: int := n - 1;
    while cursor >= 0 && !IsSeparator(buffer[cursor])
      invariant -1 <= cursor < n
      invariant forall j :: cursor < j < n ==> !IsSeparator(buffer[j])
      decreases cursor
    {
      cursor := cursor - 1;
    }
    start := cursor + 1;
    LastSeparatorUnique(buffer[..n], cursor);
  }
}

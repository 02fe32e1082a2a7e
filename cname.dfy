/**
  The name the file is really opened under. The destination is passed to
  fopen as an address inside the receive buffer, so the C library reads it up to
  the first NUL in the buffer rather than up to the end of the filename
  segment; the segment itself is not NUL-terminated on the wire.
 */
module CName {
  import opened FileInfo
  import opened Filename

  datatype Option<T> = None | Some(value: T)

  /** The C string that starts at `start` in `buf`: the bytes up to the first
      NUL. None when no NUL follows, so that the read runs past the buffer. */
  function CStringAt(buf: seq<byte>, start: nat): (r: Option<seq<byte>>)
    requires start <= |buf|
    ensures r.Some? ==> start + |r.value| < |buf| && buf[start + |r.value|] == 0
                        && r.value == buf[start..start + |r.value|]
                        && forall j :: 0 <= j < |r.value| ==> r.value[j] != 0
    ensures r.None? ==> forall j :: start <= j < |buf| ==> buf[j] != 0
    decreases |buf| - start
  {
    if start == |buf| then None
    else if buf[start] == 0 then Some([])
    else match CStringAt(buf, start + 1)
      case None => None
      case Some(tail) => Some([buf[start]] + tail)
  }

  /** A filename segment that fills the whole buffer without a NUL: the name
      fopen reads has no end inside the buffer. */
  lemma FullSegmentOverrunsBuffer()
    ensures var buf := seq(BufferSize, _ => 0x61);
      Basename(buf) == buf && CStringAt(buf, 0) == None
  {
    var buf: seq<byte> := seq(BufferSize, _ => 0x61);
    WholeSegmentWithoutSeparator(buf);
  }

  /** A short segment "c.txt" followed in the buffer by a stale 'x' and a NUL
      opens "c.txtx" instead of "c.txt". */
  lemma StaleByteExtendsName()
    ensures var buf := Latin1("c.txt") + [0x78, 0];
      Basename(buf[..5]) == Latin1("c.txt") && CStringAt(buf, 0) == Some(Latin1("c.txtx"))
  {
    var buf := Latin1("c.txt") + [0x78, 0];
    assert buf[..5] == Latin1("c.txt");
    WholeSegmentWithoutSeparator(buf[..5]);
    var name := CStringAt(buf, 0);
    assert buf[6] == 0;
    assert name.value == buf[..6];
    assert buf[..6] == Latin1("c.txtx");
  }
}

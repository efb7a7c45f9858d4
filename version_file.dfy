/**
 * The ".version" marker of an installed release (version/version.go): twelve bytes holding the
 * major, minor and patch numbers as little-endian uint32 values at offsets 0, 4 and 8.
 */
module VersionFile {
  import opened Wrappers
  import opened Numeric
  import opened Paths
  import opened SemVer
  import opened FileSystems

  const MarkerName := ".version"
  const RecordSize := 12

  datatype VersionError =
    | StatFailed(cause: FsError)
    | ReadFailed(cause: FsError)
    | CreateFailed(cause: FsError)
    | RemoveFailed(cause: FsError)
    | WriteFailed(cause: FsError)
    | ParseFailed(text: string)

  /** binary.LittleEndian.PutUint32's four bytes. */
  function LE32(v: nat): (bs: seq<byte>)
    requires v < TWO_32
    ensures |bs| == 4
  {
    [v % 256, (v / 256) % 256, (v / 65536) % 256, (v / 16777216) % 256]
  }

  /** binary.LittleEndian.Uint32 of four bytes. */
  function Uint32(bs: seq<byte>): (v: nat)
    requires |bs| == 4
    ensures v < TWO_32
  {
    bs[0] as int + 256 * bs[1] as int + 65536 * bs[2] as int + 16777216 * bs[3] as int
  }

  lemma LE32RoundTrip(v: nat)
    requires v < TWO_32
    ensures Uint32(LE32(v)) == v
  {
    var b0, b1, b2, b3 := v % 256, (v / 256) % 256, (v / 65536) % 256, (v / 16777216) % 256;
    assert v / 256 == 256 * ((v / 256) / 256) + b1;
    assert (v / 256) / 256 == v / 65536;
    assert v / 65536 == 256 * ((v / 65536) / 256) + b2;
    assert (v / 65536) / 256 == v / 16777216;
    assert v / 16777216 < 256;
  }

  lemma Uint32RoundTrip(bs: seq<byte>)
    requires |bs| == 4
    ensures LE32(Uint32(bs)) == bs
  {
    var v := Uint32(bs);
    var b0, b1, b2, b3: int := bs[0], bs[1], bs[2], bs[3];
    assert v == b0 + 256 * (b1 + 256 * (b2 + 256 * b3));
    assert v % 256 == b0;
    assert v / 256 == b1 + 256 * (b2 + 256 * b3);
    assert v / 65536 == (v / 256) / 256 == b2 + 256 * b3;
    assert v / 16777216 == (v / 65536) / 256 == b3;
  }

  /** The record for a version: uint32(Major()), uint32(Minor()), uint32(Patch()). */
  function Encode(v: Version): (bs: seq<byte>)
    ensures |bs| == RecordSize
    ensures bs[0..4] == LE32(U32(v.major)) && bs[4..8] == LE32(U32(v.minor)) && bs[8..12] == LE32(U32(v.patch))
  {
    LE32(U32(v.major)) + LE32(U32(v.minor)) + LE32(U32(v.patch))
  }

  /** The text ReadVersion hands to the parser: fmt.Sprintf("%d.%d.%d", ...). */
  function Text(major: nat, minor: nat, patch: nat): string {
    Decimal(major) + "." + Decimal(minor) + "." + Decimal(patch)
  }

  /** The text a record decodes to; it needs the first twelve bytes. */
  function DecodeText(bs: seq<byte>): string
    requires |bs| >= RecordSize
  {
    Text(Uint32(bs[0..4]), Uint32(bs[4..8]), Uint32(bs[8..12]))
  }

  /**
   * The bytes the three slices read. os.ReadFile returns a buffer with a capacity of at least 512
   * zeroed bytes, and a slice expression is bounded by the capacity, so a short file reads as if
   * padded with zeros to a whole record.
   */
  function Padded(bs: seq<byte>): (r: seq<byte>)
    ensures |r| >= RecordSize && |r| >= |bs|
    ensures forall i :: 0 <= i < |bs| ==> r[i] == bs[i]
    ensures forall i :: |bs| <= i < |r| ==> r[i] == 0
  {
    if |bs| < RecordSize then bs + seq(RecordSize - |bs|, _ => 0) else bs
  }

  /** The path of the marker in a directory. */
  function MarkerPath(dir: string): (p: string)
    ensures p != ""
  {
    JoinNotEmpty(dir, MarkerName);
    Join(dir, MarkerName)
  }

  /** A parser that reads back the text of a numeric triple as that triple. */
  predicate ReadsTriples(parse: Parser) {
    forall a: nat, b: nat, c: nat {:trigger Text(a, b, c)} ::
      a < TWO_32 && b < TWO_32 && c < TWO_32 ==> parse(Text(a, b, c)) == Some(Version(a, b, c, [], ""))
  }

  /**
   * ReadVersion: a marker that does not exist reads as 0.0.0; otherwise the first twelve bytes of
   * the file, zero-padded when it is shorter, are decoded and parsed.
   */
  function ReadVersion(fs: FileSystem, dir: string, parse: Parser): (r: Result<Version, VersionError>)
    reads fs
    requires fs.Valid()
    ensures fs.Stat(MarkerPath(dir)).Failure? ==> (r.Success? <==> fs.Stat(MarkerPath(dir)).error.NotExist?)
    ensures fs.Stat(MarkerPath(dir)).Success? && r.Success? ==>
      fs.ReadFile(MarkerPath(dir)).Success? && parse(DecodeText(Padded(fs.ReadFile(MarkerPath(dir)).value))) == Some(r.value)
    ensures fs.Stat(MarkerPath(dir)).Success? && fs.ReadFile(MarkerPath(dir)).Failure? ==>
      r == Failure(ReadFailed(fs.ReadFile(MarkerPath(dir)).error))
    ensures (fs.Stat(MarkerPath(dir)).Success? && fs.ReadFile(MarkerPath(dir)).Success? &&
             parse(DecodeText(Padded(fs.ReadFile(MarkerPath(dir)).value))).None?) ==>
      r == Failure(ParseFailed(DecodeText(Padded(fs.ReadFile(MarkerPath(dir)).value))))
  {
    var path := MarkerPath(dir);
    match fs.Stat(path)
    case Failure(e) => if e.NotExist? then Success(Zero) else Failure(StatFailed(e))
    case Success(_) =>
      match fs.ReadFile(path)
      case Failure(e) => Failure(ReadFailed(e))
      case Success(bs) =>
        var text := DecodeText(Padded(bs));
        match parse(text)
        case None => Failure(ParseFailed(text))
        case Some(v) => Success(v)
  }

  /** binary.LittleEndian.PutUint32 into buf[off..off+4]. */
  method PutUint32(buf: array<byte>, off: nat, v: nat)
    requires off + 4 <= buf.Length && v < TWO_32
    modifies buf
    ensures buf[..] == old(buf[..off]) + LE32(v) + old(buf[off + 4..])
  {
    var bs := LE32(v);
    buf[off] := bs[0];
    buf[off + 1] := bs[1];
    buf[off + 2] := bs[2];
    buf[off + 3] := bs[3];
    assert buf[..] == old(buf[..off]) + bs + old(buf[off + 4..]);
  }

  /** The record WriteVersion fills in place. */
  method EncodeRecord(v: Version) returns (buf: array<byte>)
    ensures fresh(buf) && buf[..] == Encode(v)
  {
    buf := new byte[RecordSize](_ => 0);
    PutUint32(buf, 0, U32(v.major));
    PutUint32(buf, 4, U32(v.minor));
    PutUint32(buf, 8, U32(v.patch));
    assert buf[..] == LE32(U32(v.major)) + LE32(U32(v.minor)) + LE32(U32(v.patch));
  }

  /** WriteVersion's first half: an existing marker is removed, a missing one created empty. */
  method ResetMarker(fs: FileSystem, path: string) returns (err: Option<VersionError>)
    requires fs.Valid() && path != ""
    modifies fs
    ensures fs.Valid()
    ensures fs.nodes - {fs.Locate(path)} == old(fs.nodes) - {fs.Locate(path)}
    ensures old(fs.Stat(path)).Failure? && !old(fs.Stat(path)).error.NotExist? ==>
      err == Some(StatFailed(old(fs.Stat(path)).error)) && fs.nodes == old(fs.nodes)
  {
    var st := fs.Stat(path);
    if st.Failure? {
      if !st.error.NotExist? {
        return Some(StatFailed(st.error));
      }
      var e1 := fs.Create(path);
      if e1.Some? {
        return Some(CreateFailed(e1.value));
      }
    } else {
      var e1 := fs.Remove(path);
      if e1.Some? {
        return Some(RemoveFailed(e1.value));
      }
    }
    return None;
  }

  /** WriteVersion. */
  method WriteVersion(fs: FileSystem, dir: string, v: Version) returns (err: Option<VersionError>)
    requires fs.Valid()
    modifies fs
    ensures fs.Valid()
    ensures err.None? ==> fs.nodes == old(fs.nodes)[fs.Locate(MarkerPath(dir)) := File(Encode(v))]
    ensures fs.nodes - {fs.Locate(MarkerPath(dir))} == old(fs.nodes) - {fs.Locate(MarkerPath(dir))}
    ensures old(fs.Stat(MarkerPath(dir))).Failure? && !old(fs.Stat(MarkerPath(dir))).error.NotExist? ==>
      err == Some(StatFailed(old(fs.Stat(MarkerPath(dir))).error)) && fs.nodes == old(fs.nodes)
  {
    var path := MarkerPath(dir);
    ghost var k := fs.Locate(path);
    err := ResetMarker(fs, path);
    if err.Some? {
      return;
    }
    ghost var reset := fs.nodes;
    var buf := EncodeRecord(v);
    var e2 := fs.WriteFile(path, buf[..]);
    assert fs.nodes - {k} == reset - {k};
    if e2.Some? {
      return Some(WriteFailed(e2.value));
    }
    assert fs.nodes == reset[k := File(Encode(v))];
    SameBesides(old(fs.nodes), reset, k, File(Encode(v)));
    return None;
  }

  /** Two trees equal away from k are equal once k is set. */
  lemma SameBesides(m1: Tree, m2: Tree, k: Key, n: Node)
    requires m1 - {k} == m2 - {k}
    ensures m1[k := n] == m2[k := n]
  {
    forall c | c != k
      ensures (c in m1 <==> c in m2) && (c in m1 ==> m1[c] == m2[c])
    {
      assert (c in m1 <==> c in m1 - {k}) && (c in m2 <==> c in m2 - {k});
      if c in m1 {
        assert m1[c] == (m1 - {k})[c];
        assert m2[c] == (m2 - {k})[c];
      }
    }
  }

  // ---------------------------------------------------------------------------------------

  /** A missing marker reads as 0.0.0 without an error. */
  lemma ReadMissing(fs: FileSystem, dir: string, parse: Parser)
    requires fs.Valid() && fs.Stat(MarkerPath(dir)).Failure? && fs.Stat(MarkerPath(dir)).error.NotExist?
    ensures ReadVersion(fs, dir, parse) == Success(Zero)
  {
  }

  /** Only the first twelve bytes count: anything after them is ignored. */
  lemma DecodeIgnoresTail(bs: seq<byte>, extra: seq<byte>)
    requires |bs| == RecordSize
    ensures DecodeText(bs + extra) == DecodeText(bs)
  {
    assert (bs + extra)[0..4] == bs[0..4];
    assert (bs + extra)[4..8] == bs[4..8];
    assert (bs + extra)[8..12] == bs[8..12];
  }

  /** Decoding a written record gives back the text of the stored (wrapped) components. */
  lemma DecodeEncode(v: Version)
    ensures DecodeText(Encode(v)) == Text(U32(v.major), U32(v.minor), U32(v.patch))
  {
    var bs := Encode(v);
    LE32RoundTrip(U32(v.major));
    LE32RoundTrip(U32(v.minor));
    LE32RoundTrip(U32(v.patch));
  }

  /**
   * Round trip: after a successful write, a read yields the numeric triple, each component taken
   * modulo 2^32, with no pre-release and no build metadata.
   */
  lemma ReadAfterWrite(fs: FileSystem, dir: string, v: Version, parse: Parser)
    requires fs.Valid() && ReadsTriples(parse)
    requires fs.Locate(MarkerPath(dir)) in fs.nodes
    requires fs.nodes[fs.Locate(MarkerPath(dir))] == File(Encode(v))
    requires (StatOp, fs.Locate(MarkerPath(dir))) !in fs.faults && (ReadOp, fs.Locate(MarkerPath(dir))) !in fs.faults
    ensures ReadVersion(fs, dir, parse) == Success(Version(U32(v.major), U32(v.minor), U32(v.patch), [], ""))
  {
    DecodeEncode(v);
    var t := Text(U32(v.major), U32(v.minor), U32(v.patch));
    assert parse(t) == Some(Version(U32(v.major), U32(v.minor), U32(v.patch), [], ""));
  }

  /** For components below 2^32 the round trip is exact. */
  lemma ReadAfterWriteExact(fs: FileSystem, dir: string, v: Version, parse: Parser)
    requires fs.Valid() && ReadsTriples(parse)
    requires v.major < TWO_32 && v.minor < TWO_32 && v.patch < TWO_32 && v.pre == [] && v.build == ""
    requires fs.Locate(MarkerPath(dir)) in fs.nodes
    requires fs.nodes[fs.Locate(MarkerPath(dir))] == File(Encode(v))
    requires (StatOp, fs.Locate(MarkerPath(dir))) !in fs.faults && (ReadOp, fs.Locate(MarkerPath(dir))) !in fs.faults
    ensures ReadVersion(fs, dir, parse) == Success(v)
  {
    ReadAfterWrite(fs, dir, v, parse);
  }

  /** Components of 2^32 or more are stored modulo 2^32: 4294967296.0.1 reads back as 0.0.1. */
  lemma WrapExample()
    ensures Encode(Version(TWO_32, 0, 1, [], "")) == Encode(Version(0, 0, 1, [], ""))
  {
  }

  /** Pre-release and build metadata are not stored. */
  lemma EncodeForgetsLabels(v: Version, pre: seq<Ident>, build: string)
    ensures Encode(v) == Encode(v.(pre := pre, build := build))
  {
  }

  /** The missing bytes of a short marker are zeros: each field is read from the padded record. */
  lemma {:induction false} PaddedFields(bs: seq<byte>)
    requires |bs| < RecordSize
    ensures Padded(bs)[0..4] == (bs + [0, 0, 0, 0, 0, 0, 0, 0, 0, 0, 0, 0])[0..4]
    ensures Padded(bs)[4..8] == (bs + [0, 0, 0, 0, 0, 0, 0, 0, 0, 0, 0, 0])[4..8]
    ensures Padded(bs)[8..12] == (bs + [0, 0, 0, 0, 0, 0, 0, 0, 0, 0, 0, 0])[8..12]
  {
    var zs: seq<byte> := [0, 0, 0, 0, 0, 0, 0, 0, 0, 0, 0, 0];
    var p := Padded(bs);
    forall i | 0 <= i < RecordSize ensures p[i] == (bs + zs)[i] {
      if i >= |bs| {
        assert (bs + zs)[i] == zs[i - |bs|];
      }
    }
  }

  /** An empty marker file reads as 0.0.0. */
  lemma EmptyMarkerReadsZero(fs: FileSystem, dir: string, parse: Parser)
    requires fs.Valid() && ReadsTriples(parse)
    requires fs.Stat(MarkerPath(dir)).Success? && fs.ReadFile(MarkerPath(dir)) == Success([])
    ensures ReadVersion(fs, dir, parse) == Success(Version(0, 0, 0, [], ""))
  {
    EmptyDecode();
  }

  lemma EmptyDecode()
    ensures DecodeText(Padded([])) == Text(0, 0, 0)
  {
    var p := Padded([]);
    PaddedFields([]);
    assert p[0..4] == [0, 0, 0, 0] && Uint32(p[0..4]) == 0;
    assert p[4..8] == [0, 0, 0, 0] && Uint32(p[4..8]) == 0;
    assert p[8..12] == [0, 0, 0, 0] && Uint32(p[8..12]) == 0;
  }

  /** The five bytes 1, 0, 0, 0, 2 read as 1.2.0: the minor field is 2 followed by padding. */
  lemma FiveByteMarker(fs: FileSystem, dir: string, parse: Parser)
    requires fs.Valid() && ReadsTriples(parse)
    requires fs.Stat(MarkerPath(dir)).Success? && fs.ReadFile(MarkerPath(dir)) == Success([1, 0, 0, 0, 2])
    ensures ReadVersion(fs, dir, parse) == Success(Version(1, 2, 0, [], ""))
  {
    FiveBytesDecode();
  }

  lemma FiveBytesDecode()
    ensures DecodeText(Padded([1, 0, 0, 0, 2])) == Text(1, 2, 0)
  {
    var bs: seq<byte> := [1, 0, 0, 0, 2];
    var p := Padded(bs);
    PaddedFields(bs);
    assert p[0..4] == [1, 0, 0, 0] && Uint32(p[0..4]) == 1;
    assert p[4..8] == [2, 0, 0, 0] && Uint32(p[4..8]) == 2;
    assert p[8..12] == [0, 0, 0, 0] && Uint32(p[8..12]) == 0;
  }
}

/** The byte stream that is hashed over the evidence of an Auto-routing run: a
    version tag and length-prefixed frames, from which everything that went in
    can be read back. */
module EvidenceFraming {
  import opened Options

  type Bytes = seq<nat>

  const WORD: nat := 8
  const U64_SPACE: nat := 0x1_0000_0000_0000_0000
  const TAG := "j2k-auto-routing-evidence-v"
  const EVIDENCE := "evidence.json"
  const MANIFEST := "external-manifest.json"

  /** A named file, as one frame carries it. */
  datatype File = File(name: Bytes, contents: Bytes)

  datatype Artifact = Artifact(version: nat, evidence: Bytes, manifest: Bytes, criteria: seq<File>)

  function Ascii(s: string): Bytes {
    seq(|s|, i requires 0 <= i < |s| => s[i] as nat)
  }

  /** `n` in `count` bytes, least significant first. */
  function LittleEndian(n: nat, count: nat): (b: Bytes)
    ensures |b| == count
  {
    if count == 0 then [] else [n % 256] + LittleEndian(n / 256, count - 1)
  }

  function FromLittleEndian(b: Bytes): nat {
    if b == [] then 0 else b[0] + 256 * FromLittleEndian(b[1..])
  }

  function Pow256(count: nat): nat {
    if count == 0 then 1 else 256 * Pow256(count - 1)
  }

  lemma {:induction false} LittleEndianRoundTrip(n: nat, count: nat)
    requires n < Pow256(count)
    ensures FromLittleEndian(LittleEndian(n, count)) == n
  {
    if count > 0 {
      LittleEndianRoundTrip(n / 256, count - 1);
      assert LittleEndian(n, count)[1..] == LittleEndian(n / 256, count - 1);
    }
  }

  function Frame(f: File): Bytes {
    LittleEndian(|f.name|, WORD) + f.name + LittleEndian(|f.contents|, WORD) + f.contents
  }

  function Frames(files: seq<File>): Bytes {
    if files == [] then [] else Frames(files[..|files| - 1]) + Frame(files[|files| - 1])
  }

  /** A length that fits the eight bytes it is written in. */
  predicate Fits(f: File) {
    |f.name| < U64_SPACE && |f.contents| < U64_SPACE
  }

  function TagOf(version: nat): Bytes
    requires version == 1 || version == 2
  {
    Ascii(TAG) + [if version == 1 then '1' as nat else '2' as nat, 0]
  }

  function FilesOf(a: Artifact): seq<File> {
    [File(Ascii(EVIDENCE), a.evidence), File(Ascii(MANIFEST), a.manifest)] + a.criteria
  }

  predicate Supported(a: Artifact) {
    (a.version == 1 || a.version == 2) && forall i :: 0 <= i < |FilesOf(a)| ==> Fits(FilesOf(a)[i])
  }

  function Stream(a: Artifact): Bytes
    requires a.version == 1 || a.version == 2
  {
    TagOf(a.version) + Frames(FilesOf(a))
  }

  // ----- writing the stream -----

  method HashArtifactFile(stream: Bytes, f: File) returns (r: Bytes)
    ensures r == stream + Frame(f)
  {
    r := stream + LittleEndian(|f.name|, WORD);
    r := r + f.name;
    r := r + LittleEndian(|f.contents|, WORD);
    r := r + f.contents;
  }

  /** What is fed to the hash, update by update; only two versions have a tag. */
  method ArtifactStream(a: Artifact) returns (r: Option<Bytes>)
    ensures r.Some? <==> a.version == 1 || a.version == 2
    ensures r.Some? ==> r.value == Stream(a)
  {
    hide Frame, LittleEndian, Ascii;
    if a.version != 1 && a.version != 2 {
      return None;
    }
    var tag := TagOf(a.version);
    var files := FilesOf(a);
    var stream := tag;
    stream := HashArtifactFile(stream, File(Ascii(EVIDENCE), a.evidence));
    stream := HashArtifactFile(stream, File(Ascii(MANIFEST), a.manifest));
    FirstTwo(files);
    for i := 0 to |a.criteria|
      invariant stream == tag + Frames(files[..i + 2])
    {
      stream := HashArtifactFile(stream, a.criteria[i]);
      assert files[..i + 3][..i + 2] == files[..i + 2] && files[i + 2] == a.criteria[i];
      assert tag + (Frames(files[..i + 2]) + Frame(files[i + 2])) == tag + Frames(files[..i + 2]) + Frame(files[i + 2]);
    }
    assert files[..|files|] == files;
    return Some(stream);
  }

  lemma FirstTwo(files: seq<File>)
    requires |files| >= 2
    ensures Frames(files[..2]) == Frame(files[0]) + Frame(files[1])
  {
    assert files[..2][..1] == files[..1] && files[..1][..0] == [];
    assert Frames(files[..1]) == Frames([]) + Frame(files[0]);
  }

  // ----- reading it back -----

  function TakeWord(b: Bytes): Option<(nat, Bytes)> {
    if |b| < WORD then None else Some((FromLittleEndian(b[..WORD]), b[WORD..]))
  }

  function TakeBlock(b: Bytes): Option<(Bytes, Bytes)> {
    match TakeWord(b)
    case None => None
    case Some((n, rest)) => if |rest| < n then None else Some((rest[..n], rest[n..]))
  }

  function TakeFrame(b: Bytes): (r: Option<(File, Bytes)>)
    ensures r.Some? ==> |r.value.1| < |b|
  {
    match TakeBlock(b)
    case None => None
    case Some((name, rest)) =>
      match TakeBlock(rest)
      case None => None
      case Some((contents, last)) => Some((File(name, contents), last))
  }

  function TakeFrames(b: Bytes): Option<seq<File>>
    decreases |b|
  {
    if b == [] then Some([])
    else
      match TakeFrame(b)
      case None => None
      case Some((f, rest)) =>
        match TakeFrames(rest)
        case None => None
        case Some(files) => Some([f] + files)
  }

  /** The artifact a stream was made of. */
  function Read(b: Bytes): Option<Artifact> {
    var n := |TAG| + 2;
    if |b| < n then None
    else
      var version := if b[..n] == TagOf(1) then 1 else if b[..n] == TagOf(2) then 2 else 0;
      match TakeFrames(b[n..])
      case None => None
      case Some(files) =>
        if version != 0 && |files| >= 2 && files[0].name == Ascii(EVIDENCE) && files[1].name == Ascii(MANIFEST)
        then Some(Artifact(version, files[0].contents, files[1].contents, files[2..]))
        else None
  }

  lemma WordSpace()
    ensures Pow256(WORD) == U64_SPACE
  {
  }

  lemma BlockBehind(header: Bytes, block: Bytes, tail: Bytes)
    requires |header| == WORD && FromLittleEndian(header) == |block|
    ensures TakeBlock(header + block + tail) == Some((block, tail))
  {
    hide FromLittleEndian;
    var b := header + block + tail;
    assert b[..WORD] == header;
    assert b[WORD..] == block + tail;
    assert (block + tail)[..|block|] == block && (block + tail)[|block|..] == tail;
  }

  lemma TakeBlockInverts(block: Bytes, tail: Bytes)
    requires |block| < U64_SPACE
    ensures TakeBlock(LittleEndian(|block|, WORD) + block + tail) == Some((block, tail))
  {
    hide LittleEndian, FromLittleEndian, Pow256, TakeBlock;
    WordSpace();
    LittleEndianRoundTrip(|block|, WORD);
    BlockBehind(LittleEndian(|block|, WORD), block, tail);
  }

  lemma TakeFrameInverts(f: File, tail: Bytes)
    requires Fits(f)
    ensures TakeFrame(Frame(f) + tail) == Some((f, tail))
  {
    var rest := LittleEndian(|f.contents|, WORD) + f.contents + tail;
    assert Frame(f) + tail == LittleEndian(|f.name|, WORD) + f.name + rest;
    TakeBlockInverts(f.name, rest);
    TakeBlockInverts(f.contents, tail);
  }

  lemma {:induction false} FramesFirst(files: seq<File>)
    requires files != []
    ensures Frames(files) == Frame(files[0]) + Frames(files[1..])
    decreases |files|
  {
    if |files| > 1 {
      FramesFirst(files[..|files| - 1]);
      assert files[..|files| - 1][1..] == files[1..][..|files| - 2];
    }
  }

  lemma TakeFramesStep(b: Bytes, f: File, rest: Bytes, files: seq<File>)
    requires TakeFrame(b) == Some((f, rest)) && TakeFrames(rest) == Some(files)
    ensures TakeFrames(b) == Some([f] + files)
  {
    hide TakeFrame;
  }

  lemma {:induction false} TakeFramesInverts(files: seq<File>)
    requires forall i :: 0 <= i < |files| ==> Fits(files[i])
    ensures TakeFrames(Frames(files)) == Some(files)
    decreases |files|
  {
    if files != [] {
      hide TakeFrames, Frames, TakeFrame, Frame, Fits;
      FramesFirst(files);
      TakeFrameInverts(files[0], Frames(files[1..]));
      TakeFramesInverts(files[1..]);
      TakeFramesStep(Frames(files), files[0], Frames(files[1..]), files[1..]);
      assert files == [files[0]] + files[1..];
    }
  }

  lemma TagsDiffer()
    ensures |TagOf(1)| == |TagOf(2)| == |TAG| + 2 && TagOf(1) != TagOf(2)
  {
    assert TagOf(1)[|TAG|] != TagOf(2)[|TAG|];
  }

  /** Reading inverts writing, for any number of criteria of any length. */
  lemma ReadInvertsStream(a: Artifact)
    requires Supported(a)
    ensures Read(Stream(a)) == Some(a)
  {
    hide TakeFrames, Frames, TagOf, Fits, Ascii;
    var n, files, b := |TAG| + 2, FilesOf(a), Stream(a);
    TagsDiffer();
    assert b[..n] == TagOf(a.version) && b[n..] == Frames(files);
    TakeFramesInverts(files);
    assert files[2..] == a.criteria;
  }

  /** So no two artifacts feed the hash the same bytes. */
  lemma StreamIsInjective(a: Artifact, b: Artifact)
    requires Supported(a) && Supported(b) && Stream(a) == Stream(b)
    ensures a == b
  {
    ReadInvertsStream(a);
    ReadInvertsStream(b);
  }

  // ----- the stream, byte by byte -----

  /** The stream begins with the version and the two fixed files under their
      names, every name and content behind its length in eight bytes. */
  lemma StreamIs(a: Artifact)
    requires a.version == 1 || a.version == 2
    ensures Stream(a) == Ascii(if a.version == 1 then "j2k-auto-routing-evidence-v1\0" else "j2k-auto-routing-evidence-v2\0")
      + (Frames([File(Ascii("evidence.json"), a.evidence), File(Ascii("external-manifest.json"), a.manifest)] + a.criteria))
    ensures forall f :: Frame(f) == LittleEndian(|f.name|, 8) + f.name + LittleEndian(|f.contents|, 8) + f.contents
  {
    TagIs(a.version);
  }

  lemma TagIs(version: nat)
    requires version == 1 || version == 2
    ensures TagOf(version) == Ascii(if version == 1 then "j2k-auto-routing-evidence-v1\0" else "j2k-auto-routing-evidence-v2\0")
  {
    var tag := if version == 1 then "j2k-auto-routing-evidence-v1\0" else "j2k-auto-routing-evidence-v2\0";
    assert tag[..|TAG|] == TAG;
    assert tag == TAG + [if version == 1 then '1' else '2', '\0'];
  }
}

/** The `FileUtils` helper object: size formatting, SHA-1 verification of a
    file, and the two filesystem helpers the services call. */
module FileUtils {
  import opened Wrappers
  import opened Text
  import opened Long64
  import opened Fs
  import opened Zip

  /** `formatFileSize` below 1024 bytes: the decimal count and " B". Larger
      sizes go through floating-point logarithms and `%.1f` and are not part
      of this model: they give None. */
  function FormatFileSize(bytes: Long): (r: Option<string>)
    ensures r.Some? <==> bytes < 1024
  {
    if bytes < 1024 then Some(IntToDecimal(bytes) + " B") else None
  }

  /** For a size between 0 and 1023 the text is one to four decimal digits
      without a leading zero that read back as the size, followed by " B":
      the one numeral `"$bytes B"` writes. */
  lemma FormatFileSizeReadsBack(bytes: Long)
    requires 0 <= bytes < 1024
    ensures var r := FormatFileSize(bytes);
      && r.Some? && 3 <= |r.value| <= 6
      && r.value[|r.value| - 2..] == " B"
      && AllDigits(r.value[..|r.value| - 2])
      && DecimalValue(r.value[..|r.value| - 2]) == bytes as nat
      && (r.value[0] == '0' ==> r.value == "0 B")
  {
    DecimalNoLeadingZero(bytes as nat);
    var digits := NatToDecimal(bytes as nat);
    var s := digits + " B";
    assert FormatFileSize(bytes) == Some(s);
    assert s[..|s| - 2] == digits;
    assert s[|s| - 2..] == " B";
    DecimalRoundTrip(bytes as nat);
    DecimalLength(bytes as nat);
  }

  /** A numeral below 10^k has at most k digits. */
  lemma {:induction false} DecimalLength(n: nat)
    ensures n < 10000 ==> |NatToDecimal(n)| <= 4
    ensures n < 1000 ==> |NatToDecimal(n)| <= 3
    ensures n < 100 ==> |NatToDecimal(n)| <= 2
  {
    if n >= 10 {
      DecimalLength(n / 10);
    }
  }

  predicate IsLowerHex(c: char)
  {
    ('0' <= c <= '9') || ('a' <= c <= 'f')
  }

  /** The lower-case hex digit of a nibble: 0-9, then a-f. */
  function HexDigit(n: nat): (c: char)
    requires n < 16
    ensures IsLowerHex(c) && HexValue(c) == n
  {
    if n < 10 then (48 + n) as char else (87 + n) as char
  }

  /** `String.format("%02x", b)`: two lower-case hex digits, high nibble first. */
  function HexByte(b: byte): string
  {
    [HexDigit(b as int / 16), HexDigit(b as int % 16)]
  }

  /** The digest rendered byte by byte, in byte order. */
  function Hex(digest: seq<byte>): string
  {
    if digest == [] then "" else Hex(digest[..|digest| - 1]) + HexByte(digest[|digest| - 1])
  }

  function HexValue(c: char): nat
  {
    if '0' <= c <= '9' then c as int - '0' as int
    else if 'a' <= c <= 'f' then c as int - 'a' as int + 10
    else 0
  }

  /** Reading a two-digit lower-case hex string back as a byte. */
  function UnHexByte(s: string): byte
    requires |s| == 2 && IsLowerHex(s[0]) && IsLowerHex(s[1])
  {
    (HexValue(s[0]) * 16 + HexValue(s[1])) as byte
  }

  /** The inverse of Hex on strings of lower-case hex digit pairs. */
  function UnHex(s: string): seq<byte>
    requires |s| % 2 == 0 && forall i :: 0 <= i < |s| ==> IsLowerHex(s[i])
  {
    if s == [] then [] else UnHex(s[..|s| - 2]) + [UnHexByte(s[|s| - 2..])]
  }

  lemma HexByteDigits(b: byte)
    ensures |HexByte(b)| == 2 && IsLowerHex(HexByte(b)[0]) && IsLowerHex(HexByte(b)[1])
    ensures UnHexByte(HexByte(b)) == b
  {
    var hi, lo := b as int / 16, b as int % 16;
    assert b as int == hi * 16 + lo;
  }

  /** The rendering has two characters per byte, all lower-case hex digits,
      and the digit pair at position 2i renders byte i. */
  lemma {:induction false} HexShape(digest: seq<byte>)
    ensures |Hex(digest)| == 2 * |digest|
    ensures forall i :: 0 <= i < |Hex(digest)| ==> IsLowerHex(Hex(digest)[i])
    ensures forall i :: 0 <= i < |digest| ==> Hex(digest)[2 * i..2 * i + 2] == HexByte(digest[i])
  {
    if digest != [] {
      var init := digest[..|digest| - 1];
      HexShape(init);
      HexByteDigits(digest[|digest| - 1]);
      var h := Hex(digest);
      assert h == Hex(init) + HexByte(digest[|digest| - 1]);
      forall i | 0 <= i < |digest| ensures h[2 * i..2 * i + 2] == HexByte(digest[i]) {
        if i < |init| {
          assert h[2 * i..2 * i + 2] == Hex(init)[2 * i..2 * i + 2];
        }
      }
    }
  }

  /** Decoding the rendering gives the digest back, so distinct digests never
      render alike. */
  lemma {:induction false} HexRoundTrip(digest: seq<byte>)
    ensures |Hex(digest)| % 2 == 0 && forall i :: 0 <= i < |Hex(digest)| ==> IsLowerHex(Hex(digest)[i])
    ensures UnHex(Hex(digest)) == digest
  {
    HexShape(digest);
    if digest != [] {
      var init := digest[..|digest| - 1];
      var last := digest[|digest| - 1];
      var h := Hex(digest);
      HexShape(init);
      HexByteDigits(last);
      assert h[..|h| - 2] == Hex(init);
      assert h[|h| - 2..] == HexByte(last);
      HexRoundTrip(init);
    }
  }

  lemma HexInjective(d1: seq<byte>, d2: seq<byte>)
    requires Hex(d1) == Hex(d2)
    ensures d1 == d2
  {
    HexRoundTrip(d1);
    HexRoundTrip(d2);
  }

  /** An expected hash holding any character that is not a lower-case hex
      digit, an upper-case A-F among them, matches no digest. */
  lemma UppercaseNeverMatches(digest: seq<byte>, expected: string, i: nat)
    requires i < |expected| && !IsLowerHex(expected[i])
    ensures Hex(digest) != expected
  {
    HexShape(digest);
  }

  /** `verifyFileHash`'s result: a failure when the file cannot be read,
      otherwise whether the rendering of its SHA-1 equals the expected text
      exactly. */
  function VerifyFileHashSpec(nodes: Nodes, path: Path, expected: string, sha1: seq<byte> -> seq<byte>): Result<bool>
  {
    match ReadSpec(nodes, path)
    case Err(e) => Err(e)
    case Ok(data) => Ok(Hex(sha1(data)) == expected)
  }

  const HashBufferSize: nat := 8192

  /** The `StringBuilder` loop over the digest bytes. */
  method EncodeHex(digest: seq<byte>) returns (s: string)
    ensures s == Hex(digest)
  {
    s := "";
    var i := 0;
    while i < |digest|
      invariant 0 <= i <= |digest|
      invariant s == Hex(digest[..i])
    {
      assert digest[..i + 1][..i] == digest[..i];
      s := s + HexByte(digest[i]);
      i := i + 1;
    }
    assert digest[..i] == digest;
  }

  /** The copy loop the services write files with: `read(buffer)` from the
      source and `write` to the freshly opened target until a read returns
      no bytes. The target ends up holding exactly the source's bytes. */
  method CopyInChunks(fs: FileSystem, target: Path, data: seq<byte>, size: nat)
    requires size > 0
    requires IsRegularFile(fs.nodes, target) && fs.nodes[target].data == []
    modifies fs`nodes
    ensures fs.nodes == old(fs.nodes)[target := File(data)]
  {
    var pos: nat := 0;
    var chunk := ReadChunk(data, pos, size);
    while |chunk| > 0
      invariant pos <= |data|
      invariant fs.nodes == old(fs.nodes)[target := File(data[..pos])]
      invariant chunk == ReadChunk(data, pos, size)
      decreases |data| - pos
    {
      assert data[..pos] + chunk == data[..pos + |chunk|];
      fs.Append(target, chunk);
      pos := pos + |chunk|;
      chunk := ReadChunk(data, pos, size);
    }
    assert data[..pos] == data;
  }

  /** `verifyFileHash`: feeds the file to the digest in 8192-byte reads,
      renders the digest and compares. */
  method VerifyFileHash(fs: FileSystem, path: Path, expected: string, sha1: seq<byte> -> seq<byte>) returns (r: Result<bool>)
    ensures r == VerifyFileHashSpec(fs.nodes, path, expected, sha1)
    ensures r == Ok(true) ==> |expected| == 2 * |sha1(fs.nodes[path].data)|
  {
    var stream := fs.OpenForRead(path);
    if stream.Err? {
      return Err(stream.error);
    }
    var data := stream.value;
    var fed: seq<byte> := [];
    var pos: nat := 0;
    var chunk := ReadChunk(data, pos, HashBufferSize);
    while |chunk| > 0
      invariant pos <= |data|
      invariant fed == data[..pos]
      invariant chunk == ReadChunk(data, pos, HashBufferSize)
      decreases |data| - pos
    {
      fed := fed + chunk;
      pos := pos + |chunk|;
      chunk := ReadChunk(data, pos, HashBufferSize);
    }
    assert fed == data;
    var hex := EncodeHex(sha1(fed));
    HexShape(sha1(fed));
    r := Ok(hex == expected);
  }

  /** `ensureDirectoryExists`: nothing when the path exists (as a directory
      or not), `createDirectories` otherwise. */
  function EnsureDirectoryExistsSpec(nodes: Nodes, p: Path): (Outcome, Nodes)
  {
    if Exists(nodes, p) then (Pass, nodes) else CreateDirectoriesSpec(nodes, p)
  }

  method EnsureDirectoryExists(fs: FileSystem, p: Path) returns (o: Outcome)
    modifies fs`nodes
    ensures (o, fs.nodes) == EnsureDirectoryExistsSpec(old(fs.nodes), p)
  {
    if Exists(fs.nodes, p) {
      o := Pass;
    } else {
      o := fs.CreateDirectories(p);
    }
  }

  /** After ensureDirectoryExists succeeds the path exists, entries that
      existed are unchanged, and every new entry is a directory on the way
      to the path. A second call changes nothing. */
  lemma EnsureDirectoryExistsEffect(nodes: Nodes, p: Path)
    ensures var (o, after) := EnsureDirectoryExistsSpec(nodes, p);
      && (o.Pass? ==> Exists(after, p))
      && (forall q :: q in nodes ==> q in after && after[q] == nodes[q])
      && (forall q :: q in after && q !in nodes ==> after[q] == Dir && q in Prefixes(p))
      && (o.Pass? ==> EnsureDirectoryExistsSpec(after, p) == (Pass, after))
  {
    var (o, after) := EnsureDirectoryExistsSpec(nodes, p);
    if !Exists(nodes, p) && o.Pass? {
      assert p[..|p|] == p;
      assert p in Prefixes(p);
      forall q | q in nodes ensures after[q] == nodes[q] {
        if q in Prefixes(p) {
          var k :| 1 <= k <= |p| && q == p[..k];
          assert !nodes[p[..k]].File?;
        }
      }
    }
  }

  /** `deleteFileSafely`: `deleteIfExists` with any exception turned into a
      failure result. */
  method DeleteFileSafely(fs: FileSystem, p: Path) returns (r: Result<bool>)
    modifies fs`nodes
    ensures (r, fs.nodes) == DeleteIfExistsSpec(old(fs.nodes), fs.locked, p)
  {
    r := fs.DeleteIfExists(p);
  }

  /** deleteFileSafely removes at most the one entry, and does so exactly when
      it reports true. */
  lemma DeleteFileSafelyEffect(nodes: Nodes, locked: set<Path>, p: Path)
    ensures var (r, after) := DeleteIfExistsSpec(nodes, locked, p);
      && (r == Ok(true) <==> (p in nodes && p !in after))
      && (r == Ok(true) ==> after == nodes - {p})
      && (r != Ok(true) ==> after == nodes)
      && (r == Ok(false) <==> (p != [] && p !in nodes))
  {
  }
}

/** Fanotify file identifiers: a type byte, a 16-bit record length, an 8-byte
    filesystem id and a file handle, optionally followed by a name.  Watches are
    keyed by the first `hdr.len` bytes. */
module Fids {
  import opened Bytes

  const FID_HDR := 20
  const HANDLE_OFF := 12
  const META_LEN := 24
  const INFO_FID: byte := 1
  const INFO_DFID_NAME: byte := 2
  const INFO_DFID: byte := 3

  /** Reads past the end yield 0. */
  function At(f: bytes, i: nat): byte {
    if i < |f| then f[i] else 0
  }

  function U16At(f: bytes, i: nat): (r: int)
    ensures 0 <= r < 0x1_0000
  {
    At(f, i) as int + 0x100 * At(f, i + 1) as int
  }

  function U32At(f: bytes, i: nat): u32 {
    At(f, i) as int + 0x100 * At(f, i + 1) as int
    + 0x1_0000 * At(f, i + 2) as int + 0x100_0000 * At(f, i + 3) as int
  }

  function U16Bytes(v: int): (r: bytes)
    requires 0 <= v < 0x1_0000
    ensures |r| == 2
  {
    [(v % 0x100) as byte, (v / 0x100) as byte]
  }

  lemma U16RoundTrip(a: byte, b: byte)
    ensures U16Bytes(a as int + 0x100 * b as int) == [a, b]
  {
  }

  function U32Bytes(v: u32): (r: bytes)
    ensures |r| == 4
  {
    var (h, m, l) := (v / 0x100 / 0x100 / 0x100, v / 0x100 / 0x100, v / 0x100);
    [(v % 0x100) as byte, (l % 0x100) as byte, (m % 0x100) as byte, h as byte]
  }

  lemma U32RoundTrip(v: u32, pre: bytes, post: bytes)
    ensures U32At(pre + U32Bytes(v) + post, |pre|) == v
  {
    var s := pre + U32Bytes(v) + post;
    var l := v / 0x100;
    var m := l / 0x100;
    var b := U32Bytes(v);
    assert At(s, |pre|) == b[0] && At(s, |pre| + 1) == b[1] && At(s, |pre| + 2) == b[2] && At(s, |pre| + 3) == b[3];
    assert v == v % 0x100 + 0x100 * l && l == l % 0x100 + 0x100 * m && m == m % 0x100 + 0x100 * (m / 0x100);
  }

  function HdrLen(f: bytes): int { U16At(f, 2) }

  function SetHdrLen(f: bytes, len: int): (r: bytes)
    requires |f| >= 4 && 0 <= len < 0x1_0000
    ensures |r| == |f|
    ensures HdrLen(r) == len
    ensures forall i: nat :: i != 2 && i != 3 ==> At(r, i) == At(f, i)
  {
    f[..2] + U16Bytes(len) + f[4..]
  }

  datatype FidKey = FidKey(len: int, bytes: bytes)

  /** The lookup key of a fid. */
  function Key(f: bytes): (k: FidKey) {
    FidKey(HdrLen(f), seq(HdrLen(f), i requires 0 <= i => At(f, i)))
  }

  /** Two fids share a key exactly when their declared records agree byte for byte,
      whatever follows the declared length. */
  lemma KeyIdentifiesRecord(f: bytes, g: bytes)
    ensures Key(f) == Key(g) <==> HdrLen(f) == HdrLen(g) && forall i :: 0 <= i < HdrLen(f) ==> At(f, i) == At(g, i)
  {
    if Key(f) == Key(g) {
      forall i | 0 <= i < HdrLen(f) ensures At(f, i) == At(g, i) {
        assert Key(f).bytes[i] == Key(g).bytes[i];
      }
    }
  }

  function Fsid(f: bytes): bytes { seq(8, i requires 0 <= i => At(f, 4 + i)) }

  /** A fid naming just a filesystem: type FID, length 20, null handle. */
  function FsidKey(f: bytes): (k: bytes)
    ensures |k| == FID_HDR
  {
    SetHdrLen([INFO_FID, 0, 0, 0] + Fsid(f) + [0, 0, 0, 0, 0, 0, 0, 0], FID_HDR)
  }

  /** Mount entries are shared by exactly the files of one filesystem. */
  lemma FsidKeyIdentifiesFilesystem(f: bytes, g: bytes)
    ensures Key(FsidKey(f)) == Key(FsidKey(g)) <==> Fsid(f) == Fsid(g)
  {
    KeyIdentifiesRecord(FsidKey(f), FsidKey(g));
    assert HdrLen(FsidKey(f)) == FID_HDR && HdrLen(FsidKey(g)) == FID_HDR;
    if Key(FsidKey(f)) == Key(FsidKey(g)) {
      forall i | 0 <= i < 8 ensures Fsid(f)[i] == Fsid(g)[i] {
        assert At(FsidKey(f), 4 + i) == Fsid(f)[i] && At(FsidKey(g), 4 + i) == Fsid(g)[i];
      }
    }
  }
}

/** The value type stored in the tree under test (`thing`), its on-disk form
    (`thing_disk`, a little-endian le32 followed by a little-endian le64) and
    the value traits that convert between the two. */
module Things {
  import opened Types

  /** thing: a 32-bit x and a 64-bit y. */
  datatype Thing = Thing(x: u32, y: u64)

  /** thing::operator== : equal exactly when both fields are equal, i.e. it
      coincides with structural equality of the value. */
  function Equal(a: Thing, b: Thing): (r: bool)
    ensures r <==> a == b
  {
    a.x == b.x && a.y == b.y
  }

  /** An le32 / le64 field is the little-endian byte image of the integer. */
  type Le32 = s: seq<byte> | |s| == 4 witness [0, 0, 0, 0]
  type Le64 = s: seq<byte> | |s| == 8 witness [0, 0, 0, 0, 0, 0, 0, 0]

  /** thing_disk */
  datatype ThingDisk = ThingDisk(x: Le32, y: Le64)

  function Pow256(n: nat): (p: nat)
    ensures p > 0
  {
    if n == 0 then 1 else 256 * Pow256(n - 1)
  }

  lemma Pow256Widths()
    ensures Pow256(4) == 0x1_0000_0000
    ensures Pow256(8) == 0x1_0000_0000_0000_0000
  {
  }

  /** The n-byte little-endian image of v (least significant byte first). */
  function EncodeLE(v: nat, n: nat): (s: seq<byte>)
    requires v < Pow256(n)
    ensures |s| == n
  {
    if n == 0 then [] else [(v % 256) as byte] + EncodeLE(v / 256, n - 1)
  }

  /** The integer whose little-endian image is s; it always fits in |s| bytes. */
  function DecodeLE(s: seq<byte>): (v: nat)
    ensures v < Pow256(|s|)
  {
    if s == [] then 0 else s[0] as nat + 256 * DecodeLE(s[1..])
  }

  lemma {:induction false} DecodeEncode(v: nat, n: nat)
    requires v < Pow256(n)
    ensures DecodeLE(EncodeLE(v, n)) == v
  {
    if n > 0 {
      var s := EncodeLE(v, n);
      assert s[1..] == EncodeLE(v / 256, n - 1);
      DecodeEncode(v / 256, n - 1);
    }
  }

  lemma {:induction false} EncodeDecode(s: seq<byte>)
    ensures EncodeLE(DecodeLE(s), |s|) == s
  {
    if s != [] {
      var v := DecodeLE(s);
      assert v % 256 == s[0] as nat && v / 256 == DecodeLE(s[1..]);
      EncodeDecode(s[1..]);
    }
  }

  /** to_disk<le32>: the little-endian image of v. */
  function ToDisk32(v: u32): (d: Le32)
    ensures DecodeLE(d) == v as nat
  {
    Pow256Widths();
    DecodeEncode(v as nat, 4);
    EncodeLE(v as nat, 4)
  }

  /** to_cpu<uint32_t>: the value whose little-endian image is d. */
  function ToCpu32(d: Le32): (v: u32)
    ensures ToDisk32(v) == d
  {
    Pow256Widths();
    EncodeDecode(d);
    DecodeLE(d) as u32
  }

  /** to_disk<le64>: the little-endian image of v. */
  function ToDisk64(v: u64): (d: Le64)
    ensures DecodeLE(d) == v as nat
  {
    Pow256Widths();
    DecodeEncode(v as nat, 8);
    EncodeLE(v as nat, 8)
  }

  /** to_cpu<uint64_t>: the value whose little-endian image is d. */
  function ToCpu64(d: Le64): (v: u64)
    ensures ToDisk64(v) == d
  {
    Pow256Widths();
    EncodeDecode(d);
    DecodeLE(d) as u64
  }

  /** to_cpu undoes to_disk, and to_disk undoes to_cpu, at both widths. */
  lemma EndianInverse(a: u32, b: u64, da: Le32, db: Le64)
    ensures ToCpu32(ToDisk32(a)) == a && ToDisk32(ToCpu32(da)) == da
    ensures ToCpu64(ToDisk64(b)) == b && ToDisk64(ToCpu64(db)) == db
  {
  }

  /** thing_traits::pack: each field is stored so that to_cpu reads it back. */
  function Pack(value: Thing): (disk: ThingDisk)
    ensures ToCpu32(disk.x) == value.x && ToCpu64(disk.y) == value.y
  {
    ThingDisk(ToDisk32(value.x), ToDisk64(value.y))
  }

  /** thing_traits::unpack: packing the result gives back the disk value. */
  function Unpack(disk: ThingDisk): (value: Thing)
    ensures Pack(value) == disk
  {
    Thing(ToCpu32(disk.x), ToCpu64(disk.y))
  }

  /** Unpacking a packed thing gives back an equal thing. */
  lemma UnpackPack(value: Thing)
    ensures Equal(Unpack(Pack(value)), value)
  {
  }

  /** Packing an unpacked disk value gives back the same bytes. */
  lemma PackUnpack(disk: ThingDisk)
    ensures Pack(Unpack(disk)) == disk
  {
  }
}

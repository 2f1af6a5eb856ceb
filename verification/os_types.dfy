/**
 The values shared by every part of the preferred-OS keyboard module: the
 `enum zmk_os_type` ordinals, the machine word the enum is stored in, the
 byte image the settings subsystem persists, and the error codes the
 handlers return.
 */
module OsTypes {

  /** An unsigned 32-bit machine word: the range of a binding's
      `param1`/`param2`, and of `preferred_os_type` under the assumed
      int-sized enum layout (as on a native_posix build, where GCC gives an
      enum with no negative enumerator the type `unsigned int`). Bare-metal
      ARM EABI toolchains use short enums instead; there the enum is one
      byte. */
  type Word = x: int | 0 <= x < 0x1_0000_0000

  const WordModulus: int := 0x1_0000_0000

  /** The ordinals of `enum zmk_os_type`. */
  const Linux: Word := 0
  const Mac: Word := 1
  const Win: Word := 2
  /** The "unconfigured" sentinel, the value before any load or selection. */
  const Other: Word := 20

  /** The operating systems that cycling walks through, in order. */
  predicate IsCyclic(os: int) {
    Linux <= os <= Win
  }

  /** `sizeof(enum zmk_os_type)` under the assumed int-sized enum layout;
      with short enums it would be 1. */
  const EnumSize: nat := 4

  type Byte = x: int | 0 <= x < 256

  /** The in-memory image of a word on a little-endian target: what
      `settings_save_one(..., &preferred_os_type, sizeof(preferred_os_type))`
      writes and what the settings read callback copies back. */
  function Encode(w: Word): (bytes: seq<Byte>)
    ensures |bytes| == EnumSize
    ensures bytes[0] == w % 256
  {
    var q1 := w / 256;
    var q2 := q1 / 256;
    [w % 256, q1 % 256, q2 % 256, q2 / 256]
  }

  function Decode(bytes: seq<Byte>): Word
    requires |bytes| == EnumSize
  {
    var b: seq<int> := bytes;
    b[0] + 256 * (b[1] + 256 * (b[2] + 256 * b[3]))
  }

  /** Reading back a persisted image yields the word that was written. */
  lemma DecodeEncode(w: Word)
    ensures Decode(Encode(w)) == w
  {
    var q1 := w / 256;
    var q2 := q1 / 256;
    assert w == w % 256 + 256 * q1;
    assert q1 == q1 % 256 + 256 * q2;
    assert q2 == q2 % 256 + 256 * (q2 / 256);
  }

  /** Every four-byte image is the image of exactly the word it decodes to. */
  lemma EncodeDecode(bytes: seq<Byte>)
    requires |bytes| == EnumSize
    ensures Encode(Decode(bytes)) == bytes
  {
    var b: seq<int> := bytes;
    var w := Decode(bytes);
    var mid := b[2] + 256 * b[3];
    var hi := b[1] + 256 * mid;
    assert w == b[0] + 256 * hi;
    assert w % 256 == bytes[0] && w / 256 == hi;
    assert hi % 256 == bytes[1] && hi / 256 == mid;
    assert mid % 256 == bytes[2] && mid / 256 == bytes[3];
  }

  /** Zephyr's errno values used by the handlers (returned negated). */
  const EINVAL: int := 22
  const ENOTSUP: int := 134
}

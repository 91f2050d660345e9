/**
  The simulator's TLV generator: it collects the bytes an image's hash
  covers, reports ahead of time the header flags and the size the TLV block
  will take, and finally emits the block. Only the hash-only generator is
  built; its block is one SHA-256 entry.
*/
module Tlv {
  import opened FlashTypes

  /** Image header flags, each one bit of the `u32` flags word. */
  datatype Flag = Pic | Sha256Flag | Pkcs15Rsa2048Sha256 | Ecdsa224Sha256 | NonBootable | Ecdsa256Sha256 | Pkcs1PssRsa2048Sha256

  function FlagBits(f: Flag): u32 {
    match f
    case Pic => 0x01
    case Sha256Flag => 0x02
    case Pkcs15Rsa2048Sha256 => 0x04
    case Ecdsa224Sha256 => 0x08
    case NonBootable => 0x10
    case Ecdsa256Sha256 => 0x20
    case Pkcs1PssRsa2048Sha256 => 0x40
  }

  /** Whether `x` is a power of two not above `0x40`, i.e. a single one of the seven flag bits. */
  predicate SingleBit(x: int) {
    x == 0x01 || x == 0x02 || x == 0x04 || x == 0x08 || x == 0x10 || x == 0x20 || x == 0x40
  }

  /** Each flag is one bit of the word, and no two flags share a bit. */
  lemma FlagBitsDistinct(f: Flag, g: Flag)
    ensures SingleBit(FlagBits(f))
    ensures FlagBits(f) == FlagBits(g) <==> f == g
  {
  }

  /** The kinds of TLV entry, each with its one-byte type code. */
  datatype TlvKind = Sha256 | Rsa2048 | Ecdsa224 | Ecdsa256

  function KindByte(k: TlvKind): u8 {
    match k
    case Sha256 => 1
    case Rsa2048 => 2
    case Ecdsa224 => 3
    case Ecdsa256 => 4
  }

  /** A SHA-256 digest: 32 bytes. */
  type Digest = d: seq<u8> | |d| == 32 witness seq(32, _ => 0)

  /** Bytes of an entry header: a type byte, a pad byte and a little-endian 16-bit payload length. */
  const HEADER_SZ: nat := 4

  /** One decoded TLV entry: its type code and its payload. */
  datatype TlvEntry = TlvEntry(kind: u8, payload: seq<u8>)

  /** The wire form of an entry with a payload shorter than 64 KiB. */
  function EncodeEntry(e: TlvEntry): (r: seq<u8>)
    requires |e.payload| < U16_LIMIT
    ensures |r| == HEADER_SZ + |e.payload|
    ensures r[0] == e.kind && r[1] == 0
    ensures r[2] as int + 0x100 * r[3] as int == |e.payload|
    ensures r[HEADER_SZ..] == e.payload
  {
    [e.kind, 0, |e.payload| % 0x100, |e.payload| / 0x100] + e.payload
  }

  /** Read one entry that fills `b` exactly: its header, then as many payload bytes as the length field says. */
  function DecodeEntry(b: seq<u8>): Option<TlvEntry> {
    if |b| < HEADER_SZ then None
    else
      var len := b[2] as int + 0x100 * b[3] as int;
      if b[1] != 0 || |b| != HEADER_SZ + len then None
      else Some(TlvEntry(b[0], b[HEADER_SZ..]))
  }

  /** Decoding an encoded entry gives the entry back. */
  lemma DecodeEncodeEntry(e: TlvEntry)
    requires |e.payload| < U16_LIMIT
    ensures DecodeEntry(EncodeEntry(e)) == Some(e)
  {
    var b := EncodeEntry(e);
    assert b[HEADER_SZ..] == e.payload;
  }

  /** Bytes the TLV block of a kind list occupies, by the generator's own accounting: a SHA-256 entry is a header and a digest. */
  function BlockSize(kinds: seq<TlvKind>): nat {
    if Sha256 in kinds then HEADER_SZ + 32 else 0
  }

  /**
    A TLV generator. The hashing context is represented by the bytes it has
    been fed; the digest it finishes with is `hash` of them.
  */
  class TlvGen {
    var flags: Flag
    var kinds: seq<TlvKind>
    var size: u16
    var hashed: seq<u8>

    /** The size announced for the block is the size of the block that will be emitted. */
    predicate Valid()
      reads this
    {
      size == BlockSize(kinds)
    }

    /** A generator whose block holds only the hash of the data: flag SHA256, one SHA-256 entry of 4 + 32 bytes, nothing hashed yet. */
    constructor NewHashOnly()
      ensures flags == Sha256Flag && kinds == [Sha256] && size == HEADER_SZ + 32 && hashed == []
      ensures Valid()
    {
      flags := Sha256Flag;
      kinds := [Sha256];
      size := HEADER_SZ + 32;
      hashed := [];
    }

    /** The header flags word: the generator's flag bit. */
    function GetFlags(): (r: u32)
      reads this
      ensures r == FlagBits(flags)
      ensures flags == Sha256Flag ==> r == 0x02
    {
      FlagBits(flags)
    }

    /** The size the TLV block will occupy, available before any data is hashed. */
    function GetSize(): (r: u16)
      reads this
      ensures Valid() ==> r == BlockSize(kinds)
      ensures Valid() && Sha256 in kinds ==> r == HEADER_SZ + 32
    {
      size
    }

    /** Feed `bytes` to the hash; the flags, kinds and size stay as they were. */
    method AddBytes(bytes: seq<u8>)
      modifies this
      ensures hashed == old(hashed) + bytes
      ensures flags == old(flags) && kinds == old(kinds) && size == old(size)
      ensures old(Valid()) ==> Valid()
    {
      hashed := hashed + bytes;
    }

    /**
      Emit the TLV block: when the kinds include SHA-256, one SHA-256 entry
      whose payload is the digest of every byte fed so far; otherwise nothing.
      The announced size is the emitted length.
    */
    method MakeTlv(hash: seq<u8> -> Digest) returns (result: seq<u8>)
      ensures Sha256 in kinds ==> result == EncodeEntry(TlvEntry(KindByte(Sha256), hash(hashed)))
      ensures Sha256 !in kinds ==> result == []
      ensures |result| == BlockSize(kinds)
      ensures Valid() ==> |result| == size
    {
      result := [];
      if Sha256 in kinds {
        var digest := hash(hashed);
        result := result + [KindByte(Sha256)];
        result := result + [0];
        result := result + [32];
        result := result + [0];
        result := result + digest;
      }
    }
  }

  /**
    A SHA-256 block is 36 bytes with the header `1, 0, 32, 0`, and it
    decodes as one SHA-256 entry (type 1) whose payload is the digest of
    exactly the bytes that were fed.
  */
  lemma Sha256BlockDecodes(hash: seq<u8> -> Digest, hashed: seq<u8>, block: seq<u8>)
    requires block == EncodeEntry(TlvEntry(KindByte(Sha256), hash(hashed)))
    ensures |block| == HEADER_SZ + 32
    ensures block[..HEADER_SZ] == [1, 0, 32, 0]
    ensures DecodeEntry(block) == Some(TlvEntry(1, hash(hashed)))
  {
    DecodeEncodeEntry(TlvEntry(KindByte(Sha256), hash(hashed)));
  }
}

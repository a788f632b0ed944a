/** The hash compositions and address slicing of utils.go. */
module Utils {
  import opened Wrappers
  import opened Bytes
  import opened Crypto

  /** Address version byte (declared in wallet.go). */
  const Version: byte := 1

  /** Length of the address checksum (declared in wallet.go). */
  const AddressChecksumLength := 4

  /** The key hash an output is locked to: RIPEMD-160 of SHA-256. */
  function RipeMd160Sha256(c: Primitives, payload: Bytes): (r: Bytes)
    ensures |r| == 20
  {
    c.ripemd160(c.sha256(payload))
  }

  /** The first `length` bytes of the double SHA-256 of `payload`. */
  function ShaChecksum(c: Primitives, payload: Bytes, length: int): (r: Bytes)
    requires 0 <= length <= 32
    ensures |r| == length
    ensures r <= c.sha256(c.sha256(payload))
  {
    c.sha256(c.sha256(payload))[..length]
  }

  /** A successfully decoded address has room for the version byte and the checksum. */
  predicate DecodedLongEnough(c: Primitives, address: string) {
    c.base58Decode(address).Some? ==> |c.base58Decode(address).value| >= 1 + AddressChecksumLength
  }

  /**
    The key hash inside an address: the decoded bytes without the leading
    version byte and the trailing checksum. A decoding error is returned;
    a decoded address shorter than five bytes would fail the slice.
  */
  function PubKeyHash(c: Primitives, address: string): (r: Result<Bytes>)
    requires DecodedLongEnough(c, address)
    ensures r.Err? <==> c.base58Decode(address).None?
    ensures r.Ok? ==>
      var d := c.base58Decode(address).value;
      |r.value| == |d| - 5 && d == [d[0]] + r.value + d[|d| - AddressChecksumLength..]
  {
    match c.base58Decode(address)
    case None => Err("base58: invalid address")
    case Some(d) =>
      assert d == [d[0]] + d[1..|d| - AddressChecksumLength] + d[|d| - AddressChecksumLength..];
      Ok(d[1..|d| - AddressChecksumLength])
  }
}

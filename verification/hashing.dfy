/**
  The hash primitive of the Merkle tree: the `MerkleHash` text type, the hash of
  raw data (`get_hash_of`, src/merkle_tree.rs:151-156) and the combination of two
  node hashes (`combine_hashes`, src/merkle_tree.rs:91-100).

  SHA3-256 followed by lower-case hex rendering is a foreign computation; it is
  the caller-supplied `Digest`, and every operation that hashes takes it as a
  parameter.
 */
module Hashing {

  newtype byte = x: int | 0 <= x < 256

  /**
    A Merkle hash. The source keeps hashes as Rust `String`s: normally the
    64-character hex text of a digest, but `new_from_hashes` stores whatever
    text its caller supplies, so every string is a possible hash.
   */
  type Hash = string

  /**
    SHA3-256 rendered as lower-case hex text, seen through the two kinds of
    input the core feeds it: raw data bytes (`ofBytes`) and text, whose UTF-8
    bytes are hashed (`ofText`). The two views of the real hasher agree, which
    `Consistent` states; no proof about the tree needs it.
   */
  datatype Digest = Digest(ofBytes: seq<byte> -> Hash, ofText: string -> Hash)

  /** The text view hashes exactly the UTF-8 bytes of the text. */
  ghost predicate Consistent(d: Digest)
  {
    forall s: string :: d.ofText(s) == d.ofBytes(Utf8(s))
  }

  /** The UTF-8 encoding of one Unicode scalar value. */
  function EncodeChar(c: char): (bytes: seq<byte>)
    ensures 1 <= |bytes| <= 4
    ensures (c as int < 0x80) <==> |bytes| == 1
  {
    var n := c as int;
    if n < 0x80 then [n as byte]
    else if n < 0x800 then
      [(0xC0 + n / 0x40) as byte, (0x80 + n % 0x40) as byte]
    else if n < 0x1_0000 then
      [(0xE0 + n / 0x1000) as byte, (0x80 + (n / 0x40) % 0x40) as byte, (0x80 + n % 0x40) as byte]
    else
      [(0xF0 + n / 0x4_0000) as byte, (0x80 + (n / 0x1000) % 0x40) as byte,
       (0x80 + (n / 0x40) % 0x40) as byte, (0x80 + n % 0x40) as byte]
  }

  /** The UTF-8 bytes of a Rust `String`, which is what the hasher consumes. */
  function Utf8(s: string): seq<byte>
  {
    if |s| == 0 then [] else EncodeChar(s[0]) + Utf8(s[1..])
  }

  /**
    `get_hash_of`: the digest of the data's bytes. Data that is the UTF-8
    encoding of a text, such as a `&str` item, hashes as that text.
   */
  function HashOf(d: Digest, data: seq<byte>): (h: Hash)
    ensures Consistent(d) ==> forall s: string :: Utf8(s) == data ==> h == d.ofText(s)
  {
    d.ofBytes(data)
  }

  /**
    `combine_hashes`: the left hash's text with the right hash's text appended
    (`push_str`), hashed as UTF-8 bytes. That is the very digest `get_hash_of`
    computes for those bytes: leaves and inner nodes share one hash function
    with no domain separation.
   */
  function Combine(d: Digest, left: Hash, right: Hash): (h: Hash)
    ensures Consistent(d) ==> forall bytes :: bytes == Utf8(left) + Utf8(right) ==> h == HashOf(d, bytes)
  {
    Utf8Append(left, right);
    d.ofText(left + right)
  }

  /** Encoding a concatenation encodes each part in turn. */
  lemma {:induction false} Utf8Append(a: string, b: string)
    ensures Utf8(a + b) == Utf8(a) + Utf8(b)
    decreases |a|
  {
    if |a| == 0 {
      assert a + b == b;
    } else {
      assert (a + b)[0] == a[0];
      assert (a + b)[1..] == a[1..] + b;
      Utf8Append(a[1..], b);
    }
  }

  /**
    Joining texts loses the boundary between them: two different pairs of
    (non-hex) hashes combine to the same node.
   */
  lemma TextJoinIsAmbiguous(d: Digest)
    ensures ("ab", "c") != ("a", "bc")
    ensures Combine(d, "ab", "c") == Combine(d, "a", "bc")
  {
    assert "ab" + "c" == "a" + "bc";
  }
}

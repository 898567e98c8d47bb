/** The 12-byte little-endian form of an index, and lists of them (shared/src/db.rs). */
module IndexCodec {
  import opened IndexLists
  import opened Options

  import opened Bytes

  function Pow256(k: nat): (p: nat)
    ensures p >= 1
  {
    if k == 0 then 1 else 256 * Pow256(k - 1)
  }

  /** The `k` low bytes of `n`, least significant first. */
  function LeBytes(n: nat, k: nat): (bytes: seq<Byte>)
    ensures |bytes| == k
  {
    if k == 0 then [] else [n % 256] + LeBytes(n / 256, k - 1)
  }

  function FromLeBytes(bytes: seq<Byte>): (n: nat)
    ensures n < Pow256(|bytes|)
  {
    if bytes == [] then 0 else bytes[0] + 256 * FromLeBytes(bytes[1..])
  }

  lemma {:induction false} FromLeOfLe(n: nat, k: nat)
    requires n < Pow256(k)
    ensures FromLeBytes(LeBytes(n, k)) == n
  {
    if k > 0 {
      FromLeOfLe(n / 256, k - 1);
      assert LeBytes(n, k)[1..] == LeBytes(n / 256, k - 1);
    }
  }

  lemma {:induction false} LeOfFromLe(bytes: seq<Byte>)
    ensures LeBytes(FromLeBytes(bytes), |bytes|) == bytes
  {
    if bytes != [] {
      var rest := FromLeBytes(bytes[1..]);
      LeOfFromLe(bytes[1..]);
      assert (bytes[0] + 256 * rest) / 256 == rest && (bytes[0] + 256 * rest) % 256 == bytes[0];
      assert bytes == [bytes[0]] + bytes[1..];
    }
  }

  lemma Widths()
    ensures Pow256(8) == 0x1_0000_0000_0000_0000 && Pow256(4) == 0x1_0000_0000
  {
    assert Pow256(2) == 65536;
    assert Pow256(4) == 0x1_0000_0000;
    assert Pow256(6) == 65536 * Pow256(4);
  }

  function Encode(ix: Index): (bytes: seq<Byte>)
    ensures |bytes| == 12
  {
    LeBytes(ix.height, 8) + LeBytes(ix.tx, 4)
  }

  function Decode(bytes: seq<Byte>): Option<Index> {
    if |bytes| != 12 then None
    else
      Widths();
      Some(Index(FromLeBytes(bytes[..8]), FromLeBytes(bytes[8..])))
  }

  lemma DecodeEncode(ix: Index)
    ensures Decode(Encode(ix)) == Some(ix)
  {
    Widths();
    FromLeOfLe(ix.height, 8);
    FromLeOfLe(ix.tx, 4);
    assert Encode(ix)[..8] == LeBytes(ix.height, 8) && Encode(ix)[8..] == LeBytes(ix.tx, 4);
  }

  lemma EncodeDecode(bytes: seq<Byte>)
    requires |bytes| == 12
    ensures Decode(bytes).Some? && Encode(Decode(bytes).value) == bytes
  {
    LeOfFromLe(bytes[..8]);
    LeOfFromLe(bytes[8..]);
    assert bytes == bytes[..8] + bytes[8..];
  }

  // ----- lists

  function EncodeAll(list: seq<Index>): seq<Byte> {
    if list == [] then [] else Encode(list[0]) + EncodeAll(list[1..])
  }

  /** The indices that parse, chunk by chunk of 12. */
  function ParsedChunks(bytes: seq<Byte>): seq<Index> {
    if bytes == [] then []
    else
      var n := if |bytes| < 12 then |bytes| else 12;
      (match Decode(bytes[..n]) case Some(ix) => [ix] case None => []) + ParsedChunks(bytes[n..])
  }

  function Parse(bytes: seq<Byte>): Option<seq<Index>> {
    if 12 * (|bytes| / 12) != |bytes| then None
    else
      var indices := ParsedChunks(bytes);
      if |indices| != |bytes| / 12 then None else Some(indices)
  }

  lemma {:induction false} ParsedChunksCount(bytes: seq<Byte>)
    requires |bytes| % 12 == 0
    ensures |ParsedChunks(bytes)| == |bytes| / 12
    ensures EncodeAll(ParsedChunks(bytes)) == bytes
  {
    if bytes != [] {
      ParsedChunksCount(bytes[12..]);
      EncodeDecode(bytes[..12]);
      var ixs := ParsedChunks(bytes);
      assert ixs == [Decode(bytes[..12]).value] + ParsedChunks(bytes[12..]);
      assert ixs[1..] == ParsedChunks(bytes[12..]);
      assert bytes == bytes[..12] + bytes[12..];
    }
  }

  /** Parsing succeeds exactly on whole numbers of chunks, and then encodes back to the input. */
  lemma ParseThenEncode(bytes: seq<Byte>)
    ensures Parse(bytes).Some? <==> |bytes| % 12 == 0
    ensures Parse(bytes).Some? ==> EncodeAll(Parse(bytes).value) == bytes
  {
    if |bytes| % 12 == 0 {
      ParsedChunksCount(bytes);
    }
  }

  /** Whatever list is encoded parses back to itself. */
  lemma {:induction false} EncodeThenParse(list: seq<Index>)
    ensures |EncodeAll(list)| == 12 * |list|
    ensures Parse(EncodeAll(list)) == Some(list)
  {
    if list != [] {
      EncodeThenParse(list[1..]);
      var bytes, rest := EncodeAll(list), EncodeAll(list[1..]);
      DecodeEncode(list[0]);
      assert bytes[..12] == Encode(list[0]) && bytes[12..] == rest;
      assert ParsedChunks(bytes) == [list[0]] + ParsedChunks(rest);
      assert list == [list[0]] + list[1..];
    }
  }

  // ----- the loops

  method AsBytes(ix: Index) returns (bytes: array<Byte>)
    ensures bytes.Length == 12 && bytes[..] == Encode(ix)
  {
    bytes := new Byte[12](_ => 0);
    var h, t := LeBytes(ix.height, 8), LeBytes(ix.tx, 4);
    for i := 0 to 12
      invariant bytes[..i] == Encode(ix)[..i]
    {
      if i < 8 {
        bytes[i] := h[i];
      } else {
        bytes[i] := t[i - 8];
      }
      assert bytes[..i + 1] == bytes[..i] + [bytes[i]];
    }
    assert bytes[..] == bytes[..12];
  }

  method TryFromBytes(bytes: seq<Byte>) returns (r: Option<Index>)
    ensures r == Decode(bytes)
  {
    if |bytes| != 12 {
      return None;
    }
    var h := new Byte[8](_ => 0);
    var t := new Byte[4](_ => 0);
    for i := 0 to 12
      invariant h[..if i < 8 then i else 8] == bytes[..if i < 8 then i else 8]
      invariant i >= 8 ==> t[..i - 8] == bytes[8..i]
    {
      if i < 8 {
        h[i] := bytes[i];
        assert h[..i + 1] == h[..i] + [bytes[i]];
      } else {
        t[i - 8] := bytes[i];
        assert t[..i - 7] == t[..i - 8] + [bytes[i]];
      }
    }
    assert h[..] == bytes[..8] && t[..] == bytes[8..];
    Widths();
    r := Some(Index(FromLeBytes(h[..]), FromLeBytes(t[..])));
  }
}

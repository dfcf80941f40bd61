/** erc20TransferData of main.go: the calldata of transfer(address,uint256), laid out as
    the Solidity Contract ABI Specification, "Formal Specification of the Encoding", asks. */
module Calldata {
  import opened Arithmetic

  type byte = x: int | 0 <= x < 256

  const SELECTOR: seq<byte> := [0xa9, 0x05, 0x9c, 0xbb]
  const CALLDATA_LENGTH := 68

  /** big.Int.Bytes: big-endian, no leading zeros. */
  function BigEndian(n: nat): (bytes: seq<byte>)
  {
    if n == 0 then [] else BigEndian(n / 256) + [n % 256]
  }

  function FromBigEndian(bytes: seq<byte>): (n: nat) {
    if bytes == [] then 0
    else FromBigEndian(bytes[..|bytes| - 1]) * 256 + bytes[|bytes| - 1]
  }

  function Pow256(n: nat): (p: nat)
    ensures p >= 1
  {
    if n == 0 then 1 else 256 * Pow256(n - 1)
  }

  function Zeros(n: nat): (zeros: seq<byte>)
    ensures |zeros| == n && forall i :: 0 <= i < n ==> zeros[i] == 0
  {
    seq(n, i => 0)
  }

  /** What the three copies leave: the amount's bytes are aligned to the end and, when
      there are more than 32 of them, overwrite what was there. */
  function TransferData(to: seq<byte>, amount: nat): (data: seq<byte>)
    requires |to| == 20 && |BigEndian(amount)| <= CALLDATA_LENGTH
    ensures |data| == CALLDATA_LENGTH
  {
    var front := SELECTOR + Zeros(12) + to + Zeros(32);
    front[..CALLDATA_LENGTH - |BigEndian(amount)|] + BigEndian(amount)
  }

  method CopyInto(data: array<byte>, at: nat, bytes: seq<byte>)
    requires at + |bytes| <= data.Length
    modifies data
    ensures data[..] == old(data[..at]) + bytes + old(data[at + |bytes|..])
  {
    for i := 0 to |bytes|
      invariant forall k :: 0 <= k < data.Length ==>
                  data[k] == if at <= k < at + i then bytes[k - at] else old(data[k])
    {
      data[at + i] := bytes[i];
    }
  }

  /** A longer amount would start before the buffer; the source then panics. */
  method ERC20TransferData(to: seq<byte>, amount: nat) returns (data: array<byte>)
    requires |to| == 20 && |BigEndian(amount)| <= CALLDATA_LENGTH
    ensures fresh(data) && data[..] == TransferData(to, amount)
  {
    data := new byte[4 + 32 + 32](i => 0);
    assert data[..] == Zeros(68);
    CopyInto(data, 0, SELECTOR);
    assert data[..] == SELECTOR + Zeros(64);
    CopyInto(data, 4 + 12, to);
    assert data[..] == SELECTOR + Zeros(12) + to + Zeros(32);
    var amountBytes := BigEndian(amount);
    CopyInto(data, 68 - |amountBytes|, amountBytes);
  }

  // ---- the encoding --------------------------------------------------------------

  lemma {:induction false} BigEndianValue(n: nat)
    ensures FromBigEndian(BigEndian(n)) == n
  {
    if n > 0 {
      BigEndianValue(n / 256);
      var front := BigEndian(n / 256);
      assert BigEndian(n)[..|BigEndian(n)| - 1] == front;
    }
  }

  /** n fits in k bytes exactly when it is below 256^k. */
  lemma {:induction false} BigEndianLength(n: nat, k: nat)
    ensures |BigEndian(n)| <= k <==> n < Pow256(k)
  {
    if n > 0 && k > 0 {
      BigEndianLength(n / 256, k - 1);
      assert n / 256 < Pow256(k - 1) <==> n < 256 * Pow256(k - 1);
    }
  }

  lemma {:induction false} LeadingZeros(k: nat, bytes: seq<byte>)
    ensures FromBigEndian(Zeros(k) + bytes) == FromBigEndian(bytes)
  {
    if bytes == [] {
      assert Zeros(k) + [] == Zeros(k);
      if k > 0 {
        assert Zeros(k)[..k - 1] == Zeros(k - 1) + [];
        LeadingZeros(k - 1, []);
      }
    } else {
      var longer := Zeros(k) + bytes;
      assert longer[..|longer| - 1] == Zeros(k) + bytes[..|bytes| - 1];
      LeadingZeros(k, bytes[..|bytes| - 1]);
    }
  }

  lemma {:induction false} FromBigEndianBound(bytes: seq<byte>)
    ensures FromBigEndian(bytes) < Pow256(|bytes|)
  {
    if bytes != [] {
      FromBigEndianBound(bytes[..|bytes| - 1]);
    }
  }

  datatype Transfer = Transfer(selector: seq<byte>, to: seq<byte>, amount: nat)

  /** What a contract reads from the calldata. */
  function Decode(data: seq<byte>): Transfer
    requires |data| == CALLDATA_LENGTH
  {
    Transfer(data[..4], data[16..36], FromBigEndian(data[36..]))
  }

  /** Where the parts of the calldata lie when the amount fits its word. */
  lemma Layout(to: seq<byte>, bytes: seq<byte>, pad: nat)
    requires |to| == 20 && pad + |bytes| == 32
    ensures var data := (SELECTOR + Zeros(12) + to + Zeros(32))[..CALLDATA_LENGTH - |bytes|] + bytes;
            data[..4] == SELECTOR && data[16..36] == to && data[36..] == Zeros(pad) + bytes
            && forall k :: 4 <= k < 16 ==> data[k] == 0
  {
    var head := SELECTOR + Zeros(12) + to;
    assert |head| == 36 && head[..4] == SELECTOR && head[16..] == to;
    var data := head + Zeros(pad) + bytes;
    assert (head + Zeros(32))[..36 + pad] == head + Zeros(pad);
    assert data[..36] == head && data[36..] == Zeros(pad) + bytes;
    assert data[..4] == data[..36][..4] && data[16..36] == data[..36][16..];
  }

  /** Main result: the calldata reads back as the selector, the recipient and the amount
      if and only if the amount is a uint256. */
  lemma ReadsBack(to: seq<byte>, amount: nat)
    requires |to| == 20 && |BigEndian(amount)| <= CALLDATA_LENGTH
    ensures Decode(TransferData(to, amount)) == Transfer(SELECTOR, to, amount) <==> amount < Pow256(32)
  {
    hide Pow256, BigEndian, FromBigEndian;
    var bytes, data := BigEndian(amount), TransferData(to, amount);
    BigEndianLength(amount, 32);
    if |bytes| <= 32 {
      var pad := 32 - |bytes|;
      Layout(to, bytes, pad);
      LeadingZeros(pad, bytes);
      BigEndianValue(amount);
    } else {
      FromBigEndianBound(data[36..]);
    }
  }

  lemma {:induction false} BigEndianByte(n: nat, i: nat)
    requires i < |BigEndian(n)|
    ensures BigEndian(n)[i] == n / Pow256(|BigEndian(n)| - 1 - i) % 256
  {
    var last := |BigEndian(n)| - 1;
    var p := Pow256(last - i);
    assert last == |BigEndian(n / 256)|;
    if i == last {
      assert p == 1;
      LastByte(n, p);
    } else {
      var q := Pow256(last - 1 - i);
      assert p == 256 * q;
      BigEndianByte(n / 256, i);
      assert BigEndian(n)[i] == n / 256 / q % 256;
      hide *;
      NextByte(n, p, q);
    }
  }

  lemma LastByte(n: nat, p: nat)
    requires p == 1
    ensures n / p % 256 == n % 256
  {
  }

  lemma NextByte(n: nat, p: nat, q: nat)
    requires q > 0 && p == 256 * q
    ensures n / p == n / 256 / q
  {
    DivDiv(n, q, 256);
    assert q * 256 == p;
  }

  /** The byte of n that counts 256^k. */
  function ByteOf(n: nat, k: nat): byte {
    n / Pow256(k) % 256
  }

  lemma PaddedByte(n: nat, j: nat)
    requires j < 32 && |BigEndian(n)| <= 32
    ensures ByteOf(n, 31 - j) == (Zeros(32 - |BigEndian(n)|) + BigEndian(n))[j]
  {
    if j + |BigEndian(n)| < 32 {
      BigEndianLength(n, 31 - j);
      SmallQuotient(n, Pow256(31 - j));
    } else {
      BigEndianByte(n, j + |BigEndian(n)| - 32);
    }
  }

  /** Byte by byte: the selector, twelve zeros, the recipient, and the amount, most
      significant byte first. */
  lemma CalldataBytes(to: seq<byte>, amount: nat, j: nat)
    requires |to| == 20 && amount < Pow256(32) && j < 32 && |BigEndian(amount)| <= CALLDATA_LENGTH
    ensures var data := TransferData(to, amount);
            && data[..4] == [0xa9, 0x05, 0x9c, 0xbb]
            && (forall k :: 4 <= k < 16 ==> data[k] == 0)
            && data[16..36] == to
            && data[36 + j] == ByteOf(amount, 31 - j)
  {
    BigEndianLength(amount, 32);
    PaddedByte(amount, j);
    LayoutOf(to, amount);
    hide *;
    var data := TransferData(to, amount);
    assert data[36 + j] == data[36..][j];
  }

  lemma LayoutOf(to: seq<byte>, amount: nat)
    requires |to| == 20 && |BigEndian(amount)| <= 32
    ensures var data := TransferData(to, amount);
            && data[..4] == SELECTOR && (forall k :: 4 <= k < 16 ==> data[k] == 0) && data[16..36] == to
            && data[36..] == Zeros(32 - |BigEndian(amount)|) + BigEndian(amount)
  {
    hide BigEndian, FromBigEndian;
    Layout(to, BigEndian(amount), 32 - |BigEndian(amount)|);
  }

  lemma SmallQuotient(a: nat, b: nat)
    requires a < b
    ensures a / b % 256 == 0
  {
  }

  /** Two transfers with the same calldata are the same transfer. */
  lemma EncodingInjective(to: seq<byte>, amount: nat, to': seq<byte>, amount': nat)
    requires |to| == |to'| == 20 && amount < Pow256(32) && amount' < Pow256(32)
    ensures |BigEndian(amount)| <= 32 && |BigEndian(amount')| <= 32
    ensures TransferData(to, amount) == TransferData(to', amount') ==> to == to' && amount == amount'
  {
    BigEndianLength(amount, 32);
    BigEndianLength(amount', 32);
    ReadsBack(to, amount);
    ReadsBack(to', amount');
  }
}

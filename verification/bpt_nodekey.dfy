/**
 The keys of tree nodes (smt/pmt/bpt.go, GetNodeKey): the bits that lead to a node, a one bit that ends
 them, and zeros. There is no room for that above height 254, and every such node gets the blank key.
 */
module PatriciaNodeKeys {
  import opened Common
  import opened MerkleTree
  import opened PatriciaTrees

  type Path = seq<bool>

  function Blank(): TreeKey {
    seq(32, _ => 0)
  }

  // ---- The source's function ----

  /** `x` shifted right by `s`, with its last bit set, shifted left again. */
  function EndBit(x: nat, s: nat): nat {
    if s == 0 then (if x % 2 == 1 then x else x + 1) else 2 * EndBit(x / 2, s - 1)
  }

  lemma {:induction false} EndBitBound(x: nat, s: nat, n: nat)
    requires x < Pow2(n) && s < n
    ensures EndBit(x, s) < Pow2(n)
  {
    assert Pow2(n) == 2 * Pow2(n - 1);
    hide Pow2;
    var half := x / 2;
    assert half < Pow2(n - 1);
    if s > 0 {
      EndBitBound(half, s - 1, n - 1);
    }
  }

  lemma {:induction false} EndBitBits(x: nat, s: nat, j: nat)
    ensures TestBit(EndBit(x, s), j) == if j > s then TestBit(x, j) else j == s
    decreases s
  {
    if s > 0 && j > 0 {
      EndBitBits(x / 2, s - 1, j - 1);
    }
  }

  lemma {:induction false} ZeroBits(j: nat)
    ensures !TestBit(0, j)
  {
    if j > 0 {
      ZeroBits(j - 1);
    }
  }

  function LastByte(x: byte, s: nat): byte
    requires s < 8
  {
    assert Pow2(8) == 256 by {
      assert Pow2(8) == 16 * Pow2(4) && Pow2(4) == 16 * Pow2(0);
    }
    EndBitBound(x, s, 8);
    EndBit(x, s)
  }

  function GetNodeKey(height: nat, key: TreeKey): (r: (TreeKey, bool))
    ensures r.1 <==> height <= 254
  {
    if height > 254 then (Blank(), false)
    else
      var byteCnt, bitCnt := height / 8, height % 8;
      var nk := key[..byteCnt] + [LastByte(key[byteCnt], 7 - bitCnt)];
      (nk + seq(32 - |nk|, _ => 0), true)
  }

  lemma NodeKeyByte(height: nat, key: TreeKey, j: nat)
    requires height <= 254 && j < 32
    ensures var c := height / 8;
            GetNodeKey(height, key).0[j] ==
            if j < c then key[j] else if j == c then LastByte(key[j], 7 - height % 8) else 0
  {
    hide LastByte;
    var c := height / 8;
    var nk := key[..c] + [LastByte(key[c], 7 - height % 8)];
    assert |nk| == c + 1 && GetNodeKey(height, key).0 == nk + seq(31 - c, _ => 0);
  }

  lemma ByteOrder(i: nat, height: nat)
    ensures i < height <==> i / 8 < height / 8 || (i / 8 == height / 8 && i % 8 < height % 8)
    ensures i == height <==> i / 8 == height / 8 && i % 8 == height % 8
  {
  }

  lemma NodeKeyBit(height: nat, key: TreeKey, i: nat)
    requires height <= 254 && i < 256
    ensures Bit(GetNodeKey(height, key).0, i) == if i < height then Bit(key, i) else i == height
  {
    hide GetNodeKey, TestBit, EndBit;
    var c, b := i / 8, i % 8;
    NodeKeyByte(height, key, c);
    ByteOrder(i, height);
    EndBitBits(key[c], 7 - height % 8, 7 - b);
    ZeroBits(7 - b);
  }

  // ---- The key of a path ----

  /** The number with the given bits, the first of them highest. */
  function NumberOf(bits: seq<bool>): nat {
    if bits == [] then 0 else 2 * NumberOf(DropLast(bits)) + if Last(bits) then 1 else 0
  }

  lemma {:induction false} NumberBound(bits: seq<bool>)
    ensures NumberOf(bits) < Pow2(|bits|)
  {
    if bits != [] {
      NumberBound(DropLast(bits));
    }
  }

  lemma {:induction false} NumberBits(bits: seq<bool>, j: nat)
    requires j < |bits|
    ensures TestBit(NumberOf(bits), j) == bits[|bits| - 1 - j]
    decreases j
  {
    assert NumberOf(bits) / 2 == NumberOf(DropLast(bits));
    if j > 0 {
      NumberBits(DropLast(bits), j - 1);
    }
  }

  function ByteOf(bits: seq<bool>): byte
    requires |bits| == 8
  {
    assert Pow2(8) == 256 by {
      assert Pow2(8) == 16 * Pow2(4) && Pow2(4) == 16 * Pow2(0);
    }
    NumberBound(bits);
    NumberOf(bits)
  }

  function KeyOfBits(bits: seq<bool>): TreeKey
    requires |bits| == 256
  {
    seq(32, i requires 0 <= i < 32 => ByteOf(bits[8 * i..8 * i + 8]))
  }

  lemma BitsOfKey(bits: seq<bool>)
    requires |bits| == 256
    ensures Bits(KeyOfBits(bits)) == bits
  {
    forall d | 0 <= d < 256 ensures Bit(KeyOfBits(bits), d) == bits[d] {
      var i := d / 8;
      NumberBits(bits[8 * i..8 * i + 8], 7 - d % 8);
      assert bits[8 * i..8 * i + 8][d % 8] == bits[d];
    }
  }

  /** A path followed by the end bit. */
  function Ended(p: Path): (r: seq<bool>)
    requires |p| <= 254
    ensures |r| == 256
  {
    p + [true] + seq(255 - |p|, _ => false)
  }

  function NodeKey(p: Path): TreeKey {
    if |p| > 254 then Blank() else KeyOfBits(Ended(p))
  }

  /** The key that a node gets does not depend on the value that is inserted, only on the path to the node. */
  lemma NodeKeyOfPath(height: nat, key: TreeKey)
    requires height <= 256
    ensures GetNodeKey(height, key).0 == NodeKey(Bits(key)[..height])
  {
    if height <= 254 {
      var nk, bits := GetNodeKey(height, key).0, Ended(Bits(key)[..height]);
      forall i | 0 <= i < 256 ensures Bits(nk)[i] == bits[i] {
        NodeKeyBit(height, key, i);
        hide GetNodeKey, Bit;
      }
      BitsOfKey(bits);
      BitsInjective(nk, KeyOfBits(bits));
    }
  }

  lemma BlankBits(d: nat)
    requires d < 256
    ensures !Bits(Blank())[d]
  {
    ZeroBits(7 - d % 8);
  }

  lemma EndedInjective(p: Path, q: Path)
    requires |p| <= |q| <= 254 && Ended(p) == Ended(q)
    ensures p == q
  {
    assert Ended(q)[|q|] && Ended(p)[..|p|] == p && Ended(q)[..|q|] == q;
  }

  /** Up to height 254 a node key names one node. At height 255 all nodes have the same one. */
  lemma NodeKeysAgree(p: Path, q: Path)
    requires |p| <= 255 && |q| <= 255
    ensures NodeKey(p) == NodeKey(q) <==> p == q || (|p| == 255 && |q| == 255)
  {
    hide KeyOfBits, Bits, Ended;
    if |p| <= 254 && |q| <= 254 {
      BitsOfKey(Ended(p));
      BitsOfKey(Ended(q));
      if Ended(p) == Ended(q) {
        if |p| <= |q| {
          EndedInjective(p, q);
        } else {
          EndedInjective(q, p);
        }
      }
    } else if |p| <= 254 {
      NotBlank(p);
    } else if |q| <= 254 {
      NotBlank(q);
    }
  }

  lemma NotBlank(p: Path)
    requires |p| <= 254
    ensures NodeKey(p) != Blank()
  {
    BitsOfKey(Ended(p));
    BlankBits(|p|);
    hide KeyOfBits, Bits;
    assert Bits(NodeKey(p))[|p|];
  }
}

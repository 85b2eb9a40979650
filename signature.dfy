// The bootloader's application signature check (`signature.c`): an AES-128
// CBC-MAC (ISO/IEC 9797-1 MAC algorithm 1, zero IV) of the application
// region under each of the three keys stored in flash, compared in constant
// time with the 16-byte signature stored after the application. The AES
// block function is a parameter.
module Signature {
  import opened Bytes
  import Flash
  import StringX

  const AesBlockSize: nat := 16
  const KeyCount: nat := 3

  type Block = b: seq<byte> | |b| == 16 witness [0, 0, 0, 0, 0, 0, 0, 0, 0, 0, 0, 0, 0, 0, 0, 0]

  /** The AES block function: key, plaintext block to ciphertext block. */
  type Cipher = (Block, Block) -> Block

  const ZeroBlock: Block := [0, 0, 0, 0, 0, 0, 0, 0, 0, 0, 0, 0, 0, 0, 0, 0]

  function XorBlock(a: Block, b: Block): (c: Block)
    ensures forall i :: 0 <= i < AesBlockSize ==> c[i] == Xor8(a[i], b[i])
  {
    seq(16, i requires 0 <= i < 16 => Xor8(a[i], b[i]))
  }

  /** CBC-MAC: the chaining value after every block has been folded in, with
      no intermediate output. */
  function CbcMac(enc: Cipher, key: Block, iv: Block, blocks: seq<Block>): (tag: Block)
    ensures blocks == [] ==> tag == iv
    ensures |blocks| == 1 ==> tag == enc(key, XorBlock(iv, blocks[0]))
  {
    if blocks == [] then iv
    else enc(key, XorBlock(CbcMac(enc, key, iv, blocks[..|blocks| - 1]), blocks[|blocks| - 1]))
  }

  /** AES-CBC encryption as the host signer runs it: ciphertext block i is
      the encryption of plaintext block i XOR ciphertext block i - 1, the IV
      standing in for block -1. */
  function CbcEncrypt(enc: Cipher, key: Block, iv: Block, blocks: seq<Block>): (c: seq<Block>)
    ensures |c| == |blocks|
  {
    if blocks == [] then []
    else
      var prev := CbcEncrypt(enc, key, iv, blocks[..|blocks| - 1]);
      var chain := if prev == [] then iv else prev[|prev| - 1];
      prev + [enc(key, XorBlock(chain, blocks[|blocks| - 1]))]
  }

  /** The tag the device computes is the last ciphertext block of the host
      signer's CBC encryption. */
  lemma {:induction false} CbcMacIsLastCbcBlock(enc: Cipher, key: Block, iv: Block, blocks: seq<Block>)
    requires blocks != []
    ensures CbcEncrypt(enc, key, iv, blocks)[|blocks| - 1] == CbcMac(enc, key, iv, blocks)
  {
    var n := |blocks| - 1;
    CbcEncryptLast(enc, key, iv, blocks);
    if n > 0 {
      CbcMacIsLastCbcBlock(enc, key, iv, blocks[..n]);
    }
  }

  /** Folding in one more block advances the CBC-MAC by one encryption. */
  lemma CbcMacSnoc(enc: Cipher, key: Block, iv: Block, blocks: seq<Block>, k: nat)
    requires k < |blocks|
    ensures CbcMac(enc, key, iv, blocks[..k + 1]) == enc(key, XorBlock(CbcMac(enc, key, iv, blocks[..k]), blocks[k]))
  {
    assert blocks[..k + 1][..k] == blocks[..k];
  }

  /** The last ciphertext block chains from the one before it, or from the
      IV for a single block. */
  lemma CbcEncryptLast(enc: Cipher, key: Block, iv: Block, blocks: seq<Block>)
    requires blocks != []
    ensures var n := |blocks| - 1;
            CbcEncrypt(enc, key, iv, blocks)[n]
              == enc(key, XorBlock(if n == 0 then iv else CbcEncrypt(enc, key, iv, blocks[..n])[n - 1], blocks[n]))
  {
  }

  // ---------------------------------------------------------------------
  // The flash image

  /** Number of 16-byte blocks between the start of the application and its
      signature. */
  const AppBlockCount: nat := (Flash.AppSignature - Flash.AppStart) / AesBlockSize

  /** The signed region is a whole number of AES blocks. */
  lemma SignedRegionIsBlockAligned()
    ensures (Flash.AppSignature - Flash.AppStart) % AesBlockSize == 0
    ensures Flash.AppStart + AppBlockCount * AesBlockSize == Flash.AppSignature
    ensures AppBlockCount == 1663
  {
  }

  function AppBlock(m: seq<byte>, k: nat): Block
    requires |m| == Flash.FlashSize && k < AppBlockCount
  {
    m[Flash.AppStart + 16 * k..Flash.AppStart + 16 * k + 16]
  }

  lemma AppBlockAt(m: seq<byte>, k: nat)
    requires |m| == Flash.FlashSize && k < AppBlockCount
    ensures AppBlocks(m)[k] == m[Flash.AppStart + 16 * k..Flash.AppStart + 16 * k + 16]
  {
  }

  /** The application region as AES blocks. */
  function AppBlocks(m: seq<byte>): (bs: seq<Block>)
    requires |m| == Flash.FlashSize
    ensures |bs| == AppBlockCount
  {
    seq(AppBlockCount, k requires 0 <= k < AppBlockCount => AppBlock(m, k))
  }

  /** Key `i` of the three stored below the reserved bytes. */
  function Key(m: seq<byte>, i: nat): Block
    requires |m| == Flash.FlashSize && i < KeyCount
  {
    m[Flash.SignatureKeys + 16 * i..Flash.SignatureKeys + 16 * i + 16]
  }

  function StoredSignature(m: seq<byte>): Block
    requires |m| == Flash.FlashSize
  {
    m[Flash.AppSignature..Flash.AppSignature + 16]
  }

  /** Whether key `i`'s MAC of the application equals the stored signature. */
  predicate KeyMatches(enc: Cipher, m: seq<byte>, i: nat)
    requires |m| == Flash.FlashSize && i < KeyCount
  {
    CbcMac(enc, Key(m, i), ZeroBlock, AppBlocks(m)) == StoredSignature(m)
  }

  /** The image is accepted when any stored key signs it. */
  predicate AppSigned(enc: Cipher, m: seq<byte>)
    requires |m| == Flash.FlashSize
    ensures AppSigned(enc, m) <==> KeyMatches(enc, m, 0) || KeyMatches(enc, m, 1) || KeyMatches(enc, m, 2)
  {
    exists i :: 0 <= i < KeyCount && KeyMatches(enc, m, i)
  }

  /** The host signer's tag under one of the stored keys is what makes an
      image acceptable. */
  lemma SignedByHostKey(enc: Cipher, m: seq<byte>, i: nat)
    requires |m| == Flash.FlashSize && i < KeyCount
    requires CbcEncrypt(enc, Key(m, i), ZeroBlock, AppBlocks(m))[AppBlockCount - 1] == StoredSignature(m)
    ensures AppSigned(enc, m)
  {
    CbcMacIsLastCbcBlock(enc, Key(m, i), ZeroBlock, AppBlocks(m));
    assert KeyMatches(enc, m, i);
  }

  /** Whether one of the first `n` keys signs the image. */
  predicate SomeKeyBelow(enc: Cipher, m: seq<byte>, n: nat)
    requires |m| == Flash.FlashSize && n <= KeyCount
  {
    n > 0 && (SomeKeyBelow(enc, m, n - 1) || KeyMatches(enc, m, n - 1))
  }

  lemma {:induction false} SomeKeyBelowMeans(enc: Cipher, m: seq<byte>, n: nat)
    requires |m| == Flash.FlashSize && n <= KeyCount
    ensures SomeKeyBelow(enc, m, n) <==> exists i :: 0 <= i < n && KeyMatches(enc, m, i)
  {
    if n > 0 {
      SomeKeyBelowMeans(enc, m, n - 1);
    }
  }

  /** `signature_app_valid`: every key is tried, with no early exit; the
      match flag, once set, stays set. */
  method AppValid(flash: Flash.FlashMemory, enc: Cipher) returns (valid: bool)
    requires flash.Valid()
    ensures valid <==> AppSigned(enc, flash.mem[..])
  {
    ghost var m := flash.mem[..];
    var zeros := Zeros();
    var signature := new byte[AesBlockSize](_ => 0);
    valid := false;
    for i := 0 to KeyCount
      invariant flash.mem[..] == m && zeros[..] == ZeroBlock
      invariant valid == SomeKeyBelow(enc, m, i)
    {
      KeyMac(flash, enc, i, zeros, signature);
      var differ := StringX.MemCmpXCt(signature, 0, flash.mem, Flash.AppSignature, AesBlockSize as byte);
      assert flash.mem[Flash.AppSignature..Flash.AppSignature + AesBlockSize] == StoredSignature(m);
      if !differ {
        valid := true;
      }
    }
    SomeKeyBelowMeans(enc, m, KeyCount);
  }

  /** The all-zero IV, filled in byte by byte. */
  method Zeros() returns (zeros: array<byte>)
    ensures fresh(zeros) && zeros[..] == ZeroBlock
  {
    zeros := new byte[AesBlockSize];
    for z := 0 to AesBlockSize
      invariant forall k :: 0 <= k < z ==> zeros[k] == 0
    {
      zeros[z] := 0;
    }
  }

  /** One key's pass over the application: all blocks but the last in CBC-MAC
      mode, the last in CBC mode, whose ciphertext is written to
      `signature`. */
  method KeyMac(flash: Flash.FlashMemory, enc: Cipher, i: nat, zeros: array<byte>, signature: array<byte>)
    requires flash.Valid() && i < KeyCount && zeros[..] == ZeroBlock
    requires signature.Length == AesBlockSize && signature != flash.mem && signature != zeros
    modifies signature
    ensures signature[..] == CbcMac(enc, Key(flash.mem[..], i), ZeroBlock, AppBlocks(flash.mem[..]))
  {
    SignedRegionIsBlockAligned();
    ghost var m := flash.mem[..];
    ghost var bs := AppBlocks(m);
    var key: Block := flash.mem[Flash.SignatureKeys + 16 * i..Flash.SignatureKeys + 16 * i + 16];
    var iv: Block := zeros[..];
    var chain := iv;
    var chunk := Flash.AppStart;
    ghost var k := 0;
    while chunk < Flash.AppSignature
      invariant 0 <= k <= AppBlockCount && chunk == Flash.AppStart + 16 * k
      invariant chain == CbcMac(enc, key, iv, bs[..k])
      invariant k == AppBlockCount ==> signature[..] == chain
      decreases Flash.AppSignature - chunk
    {
      var block: Block := flash.mem[chunk..chunk + 16];
      AppBlockAt(m, k);
      CbcMacSnoc(enc, key, iv, bs, k);
      chain := enc(key, XorBlock(chain, block));
      if chunk < Flash.AppSignature - AesBlockSize {
        // CBC-MAC mode: the chaining value advances, nothing is output
        assert k + 1 < AppBlockCount;
      } else {
        // CBC mode: the ciphertext of the last block is read out
        forall z | 0 <= z < AesBlockSize {
          signature[z] := chain[z];
        }
        assert signature[..] == chain;
        assert k + 1 == AppBlockCount;
      }
      chunk := chunk + AesBlockSize;
      k := k + 1;
    }
    assert bs[..AppBlockCount] == bs;
  }
}

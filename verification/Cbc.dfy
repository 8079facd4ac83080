/** Cipher block chaining over an abstract block cipher. Nothing is assumed of the
    cipher but that decryption undoes encryption block by block. */
module Cbc {
  import opened Bytes
  import opened Bits

  datatype Cipher = Cipher(blockLength: nat, encrypt: seq<Byte> -> seq<Byte>, decrypt: seq<Byte> -> seq<Byte>)

  ghost predicate Lawful(c: Cipher) {
    && c.blockLength > 0
    && forall b: seq<Byte> {:trigger c.encrypt(b)} {:trigger c.decrypt(b)} :: |b| == c.blockLength ==>
         |c.encrypt(b)| == c.blockLength && |c.decrypt(b)| == c.blockLength && c.decrypt(c.encrypt(b)) == b
  }

  function XorBytes(a: seq<Byte>, b: seq<Byte>): (r: seq<Byte>)
    requires |a| == |b|
    ensures |r| == |a|
  {
    if a == [] then []
    else
      ByteXor(a[0], b[0]);
      [Xor(a[0], b[0])] + XorBytes(a[1..], b[1..])
  }

  lemma ByteXor(a: Byte, b: Byte)
    ensures Xor(a, b) < 256
  {
    assert Pow2(8) == 256;
    BitwiseBounds(a, b, 8);
  }

  lemma {:induction false} XorBytesCancels(a: seq<Byte>, b: seq<Byte>)
    requires |a| == |b|
    ensures XorBytes(XorBytes(a, b), b) == a
  {
    if a != [] {
      XorCancels(a[0], b[0]);
      XorBytesCancels(a[1..], b[1..]);
      assert XorBytes(a, b)[1..] == XorBytes(a[1..], b[1..]);
    }
  }

  predicate WholeBlocks(c: Cipher, text: seq<Byte>) {
    c.blockLength > 0 && |text| % c.blockLength == 0
  }

  lemma DropBlock(c: Cipher, text: seq<Byte>)
    requires WholeBlocks(c, text) && text != []
    ensures c.blockLength <= |text| && WholeBlocks(c, text[c.blockLength..])
  {
    var n, q := c.blockLength, |text| / c.blockLength;
    assert |text| == q * n && q > 0;
    AtLeastOnce(q, n);
    assert |text| - n == (q - 1) * n + 0;
    ModuloUnique(|text| - n, n, q - 1, 0);
  }

  function Encrypt(c: Cipher, iv: seq<Byte>, text: seq<Byte>): (r: seq<Byte>)
    requires Lawful(c) && |iv| == c.blockLength && WholeBlocks(c, text)
    ensures |r| == |text|
    decreases |text|
  {
    if text == [] then []
    else
      DropBlock(c, text);
      var block := c.encrypt(XorBytes(text[..c.blockLength], iv));
      block + Encrypt(c, block, text[c.blockLength..])
  }

  function Decrypt(c: Cipher, iv: seq<Byte>, text: seq<Byte>): (r: seq<Byte>)
    requires Lawful(c) && |iv| == c.blockLength && WholeBlocks(c, text)
    ensures |r| == |text|
    decreases |text|
  {
    if text == [] then []
    else
      DropBlock(c, text);
      var block := text[..c.blockLength];
      XorBytes(c.decrypt(block), iv) + Decrypt(c, block, text[c.blockLength..])
  }

  lemma AddBlock(c: Cipher, block: seq<Byte>, rest: seq<Byte>)
    requires WholeBlocks(c, rest) && |block| == c.blockLength
    ensures WholeBlocks(c, block + rest)
  {
    var n, q := c.blockLength, |rest| / c.blockLength;
    ModuloUnique(n + |rest|, n, q + 1, 0);
  }

  lemma DecryptFirst(c: Cipher, iv: seq<Byte>, block: seq<Byte>, rest: seq<Byte>)
    requires Lawful(c) && |iv| == |block| == c.blockLength && WholeBlocks(c, rest) && WholeBlocks(c, block + rest)
    ensures Decrypt(c, iv, block + rest) == XorBytes(c.decrypt(block), iv) + Decrypt(c, block, rest)
  {
    hide XorBytes;
    assert (block + rest)[..c.blockLength] == block && (block + rest)[c.blockLength..] == rest;
  }

  lemma {:induction false} DecryptUndoesEncrypt(c: Cipher, iv: seq<Byte>, text: seq<Byte>)
    requires Lawful(c) && |iv| == c.blockLength && WholeBlocks(c, text)
    ensures Decrypt(c, iv, Encrypt(c, iv, text)) == text
    decreases |text|
  {
    hide XorBytes, Decrypt;
    if text == [] {
      NothingDecrypts(c, iv);
    } else {
      var n := c.blockLength;
      DropBlock(c, text);
      var block := c.encrypt(XorBytes(text[..n], iv));
      var rest := Encrypt(c, block, text[n..]);
      AddBlock(c, block, rest);
      DecryptFirst(c, iv, block, rest);
      DecryptUndoesEncrypt(c, block, text[n..]);
      XorBytesCancels(text[..n], iv);
      assert text == text[..n] + text[n..];
    }
  }

  lemma NothingDecrypts(c: Cipher, iv: seq<Byte>)
    requires Lawful(c) && |iv| == c.blockLength
    ensures Decrypt(c, iv, []) == []
  {
  }

  /** The block the next one is chained to. */
  function ChainedTo(c: Cipher, iv: seq<Byte>, body: seq<Byte>): (r: seq<Byte>)
    requires |iv| == c.blockLength
    ensures |r| == c.blockLength
  {
    if |body| < c.blockLength then iv else body[|body| - c.blockLength..]
  }

  lemma EncryptFirst(c: Cipher, iv: seq<Byte>, block: seq<Byte>, rest: seq<Byte>)
    requires Lawful(c) && |iv| == |block| == c.blockLength && WholeBlocks(c, rest) && WholeBlocks(c, block + rest)
    ensures var first := c.encrypt(XorBytes(block, iv));
            |first| == c.blockLength && Encrypt(c, iv, block + rest) == first + Encrypt(c, first, rest)
  {
    hide XorBytes;
    assert (block + rest)[..c.blockLength] == block && (block + rest)[c.blockLength..] == rest;
  }

  lemma NothingEncrypts(c: Cipher, iv: seq<Byte>)
    requires Lawful(c) && |iv| == c.blockLength
    ensures Encrypt(c, iv, []) == []
  {
  }

  /** What encrypting one block more comes to. */
  ghost predicate Continues(c: Cipher, iv: seq<Byte>, text: seq<Byte>, block: seq<Byte>)
    requires Lawful(c) && |iv| == |block| == c.blockLength && WholeBlocks(c, text)
  {
    && WholeBlocks(c, text + block)
    && var body := Encrypt(c, iv, text);
       Encrypt(c, iv, text + block) == body + c.encrypt(XorBytes(block, ChainedTo(c, iv, body)))
  }

  lemma ContinuesStep(c: Cipher, iv: seq<Byte>, head: seq<Byte>, rest: seq<Byte>, block: seq<Byte>)
    requires Lawful(c) && |iv| == |head| == |block| == c.blockLength && WholeBlocks(c, rest) && WholeBlocks(c, head + rest)
    requires |c.encrypt(XorBytes(head, iv))| == c.blockLength && Continues(c, c.encrypt(XorBytes(head, iv)), rest, block)
    ensures Continues(c, iv, head + rest, block)
  {
    hide XorBytes, Encrypt, WholeBlocks, ChainedTo;
    var first := c.encrypt(XorBytes(head, iv));
    var tail := Encrypt(c, first, rest);
    AddBlock(c, head, rest + block);
    assert (head + rest) + block == head + (rest + block);
    EncryptFirst(c, iv, head, rest);
    EncryptFirst(c, iv, head, rest + block);
    if rest != [] {
      DropBlock(c, rest);
    }
    ChainShift(c, iv, first, tail);
    var more := c.encrypt(XorBytes(block, ChainedTo(c, first, tail)));
    assert first + (tail + more) == (first + tail) + more;
  }

  lemma ContinuesFromNothing(c: Cipher, iv: seq<Byte>, block: seq<Byte>)
    requires Lawful(c) && |iv| == |block| == c.blockLength && WholeBlocks(c, [])
    ensures Continues(c, iv, [], block)
  {
    hide XorBytes, Encrypt;
    assert [] + block == block + [];
    AddBlock(c, block, []);
    EncryptFirst(c, iv, block, []);
    NothingEncrypts(c, iv);
    var first := c.encrypt(XorBytes(block, iv));
    NothingEncrypts(c, first);
    assert first + [] == [] + first;
  }

  /** One block more is chained to the last one. */
  lemma {:induction false} EncryptContinues(c: Cipher, iv: seq<Byte>, text: seq<Byte>, block: seq<Byte>)
    requires Lawful(c) && |iv| == |block| == c.blockLength && WholeBlocks(c, text)
    ensures Continues(c, iv, text, block)
    decreases |text|
  {
    hide XorBytes, Encrypt, Continues;
    if text == [] {
      ContinuesFromNothing(c, iv, block);
    } else {
      DropBlock(c, text);
      var head, rest := text[..c.blockLength], text[c.blockLength..];
      assert text == head + rest;
      EncryptContinues(c, c.encrypt(XorBytes(head, iv)), rest, block);
      ContinuesStep(c, iv, head, rest, block);
    }
  }

  lemma ChainShift(c: Cipher, iv: seq<Byte>, first: seq<Byte>, tail: seq<Byte>)
    requires |iv| == |first| == c.blockLength && (tail == [] || |tail| >= c.blockLength)
    ensures ChainedTo(c, iv, first + tail) == ChainedTo(c, first, tail)
  {
  }
}

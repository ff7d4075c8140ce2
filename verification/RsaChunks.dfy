/**
 The chunking loops of ssl_tool.cpp around the one-block RSA operations, and its MD5 wrapper.
 The block operations are parameters; random padding is an extra argument of encryption.
 */
module RsaChunks {
  import opened Options
  import opened Words
  import opened HashStream

  const OVERHEAD: nat := 42

  /** How a call ends: normally, with an error return, or outside the bounds of a string or buffer. */
  datatype Outcome<+T> = Done(value: T) | Failed | OutOfBounds

  /** An RSA key pair as its four block operations. */
  datatype RsaKey = RsaKey(
    size: nat,
    enc: (nat, seq<byte>) -> seq<byte>,
    dec: seq<byte> -> Option<seq<byte>>,
    sign: seq<byte> -> seq<byte>,
    verify: (seq<byte>, seq<byte>) -> bool)
  {
    predicate Usable() {
      size > OVERHEAD
    }

    /** limit_size */
    function Limit(): nat
      requires Usable()
    {
      size - OVERHEAD
    }

    /** One block of at most size - 42 bytes becomes size bytes and comes back. */
    ghost predicate Sound() {
      && Usable()
      && (forall nonce: nat, m :: |m| <= Limit() ==>
            |enc(nonce, m)| == size && dec(enc(nonce, m)) == Some(m))
      && (forall m :: |m| <= Limit() ==> |sign(m)| == size && verify(m, sign(m)))
    }
  }

  // ------------------------------------------------------------- the chunks

  function Head(n: nat, s: seq<byte>): seq<byte> {
    if |s| <= n then s else s[..n]
  }

  function Tail(n: nat, s: seq<byte>): seq<byte> {
    if |s| <= n then [] else s[n..]
  }

  lemma HeadAndTail(n: nat, s: seq<byte>)
    ensures Head(n, s) + Tail(n, s) == s && |Head(n, s)| <= n
  {
  }

  /** s cut into pieces of n bytes, the last one possibly shorter. */
  function Chunks(n: nat, s: seq<byte>): (r: seq<seq<byte>>)
    requires n >= 1
    decreases |s|
  {
    if s == [] then [] else if |s| <= n then [s] else [s[..n]] + Chunks(n, s[n..])
  }

  lemma ChunksStep(n: nat, s: seq<byte>)
    requires n >= 1 && s != []
    ensures Chunks(n, s) == [Head(n, s)] + Chunks(n, Tail(n, s))
  {
  }

  lemma SliceOfTail(s: seq<byte>, n: nat, j: nat)
    requires n + j <= |s|
    ensures s[n..][j..] == s[n + j..]
  {
  }

  /** Where chunk i starts. */
  function Offset(n: nat, i: nat): nat {
    if i == 0 then 0 else n + Offset(n, i - 1)
  }

  lemma {:induction false} OffsetIsProduct(n: nat, i: nat)
    ensures Offset(n, i) == i * n
  {
    if i > 0 {
      OffsetIsProduct(n, i - 1);
      OneMoreBlock(i - 1, n);
    }
  }

  lemma FirstChunk(n: nat, s: seq<byte>)
    requires n >= 1 && s != []
    ensures Chunks(n, s) != [] && Chunks(n, s)[0] == Head(n, s)
    ensures |Chunks(n, s)| > 1 <==> |s| > n
  {
  }

  lemma LaterChunk(n: nat, s: seq<byte>, i: nat)
    requires n >= 1 && 0 < i < |Chunks(n, s)|
    ensures |s| > n && |Chunks(n, s)| == 1 + |Chunks(n, s[n..])|
    ensures Chunks(n, s)[i] == Chunks(n, s[n..])[i - 1]
  {
  }

  lemma {:induction false} ChunkAtOffset(n: nat, s: seq<byte>, i: nat, cs: seq<seq<byte>>)
    requires n >= 1 && cs == Chunks(n, s) && i < |cs|
    ensures Offset(n, i) < |s|
    ensures cs[i] == Head(n, s[Offset(n, i)..])
    ensures i + 1 < |cs| <==> |s| > Offset(n, i) + n
    decreases |s|
  {
    if i == 0 {
      FirstChunk(n, s);
      assert s[0..] == s;
    } else {
      LaterChunk(n, s, i);
      ChunkAtOffset(n, s[n..], i - 1, Chunks(n, s[n..]));
      SliceOfTail(s, n, Offset(n, i - 1));
    }
  }

  /** Chunk i is the i-th stretch of n bytes, the last one as long as what is left. */
  lemma ChunkAt(n: nat, s: seq<byte>, i: nat)
    requires n >= 1 && i < |Chunks(n, s)|
    ensures 0 <= i * n < |s|
    ensures Chunks(n, s)[i] == if |s| < i * n + n then s[i * n..] else s[i * n..i * n + n]
    ensures i + 1 < |Chunks(n, s)| <==> |s| > i * n + n
  {
    OffsetIsProduct(n, i);
    ChunkAtOffset(n, s, i, Chunks(n, s));
    var rest := s[Offset(n, i)..];
    assert |rest| >= n ==> rest[..n] == s[Offset(n, i)..Offset(n, i) + n];
  }

  /** Joining blocks of n bytes and cutting the result into chunks of n bytes gives the blocks. */
  lemma {:induction false} ChunksOfJoined(n: nat, blocks: seq<seq<byte>>)
    requires n >= 1 && forall i :: 0 <= i < |blocks| ==> |blocks[i]| == n
    ensures Chunks(n, Flatten(blocks)) == blocks
  {
    if blocks != [] {
      var rest := blocks[1..];
      var s := Flatten(blocks);
      assert blocks == [blocks[0]] + rest;
      FlattenOne(blocks[0], rest);
      ChunksOfJoined(n, rest);
      assert s[..n] == blocks[0] && s[n..] == Flatten(rest);
      ChunksStep(n, s);
    }
  }

  /** The size of k + 1 blocks. */
  lemma OneMoreBlock(k: nat, size: nat)
    ensures (1 + k) * size == size + k * size
  {
  }

  function CeilDiv(x: nat, n: nat): nat
    requires n >= 1
  {
    DivFits(x + n - 1, n);
    (x + n - 1) / n
  }

  lemma CeilDivStep(x: nat, n: nat)
    requires n >= 1
    ensures CeilDiv(0, n) == 0
    ensures 1 <= x <= n ==> CeilDiv(x, n) == 1
    ensures x > n ==> CeilDiv(x, n) == CeilDiv(x - n, n) + 1
  {
    DivModUnique(n - 1, n, 0, n - 1);
    if 1 <= x <= n {
      DivModUnique(x + n - 1, n, 1, x - 1);
    } else if x > n {
      ModMultiple(x - 1, 1, n);
    }
  }

  lemma {:induction false} ChunkCount(n: nat, s: seq<byte>)
    requires n >= 1
    ensures |Chunks(n, s)| == CeilDiv(|s|, n)
    decreases |s|
  {
    CeilDivStep(|s|, n);
    if |s| > n {
      ChunkCount(n, s[n..]);
    }
  }

  // ------------------------------------------------- encryption, decryption

  /** The ciphertext: each chunk encrypted with the next nonce, one after the other. */
  function Encrypt(key: RsaKey, nonce: nat, x: seq<byte>): seq<byte>
    requires key.Usable()
    decreases |x|
  {
    if x == [] then []
    else key.enc(nonce, Head(key.Limit(), x)) + Encrypt(key, nonce + 1, Tail(key.Limit(), x))
  }

  /** A block is decrypted into a buffer of size - 42 bytes. */
  function Decrypt(key: RsaKey, s: seq<byte>): Outcome<seq<byte>>
    requires key.Usable()
    decreases |s|
  {
    if s == [] then Done([])
    else if |s| < key.size then OutOfBounds
    else match key.dec(s[..key.size])
      case None => Failed
      case Some(m) =>
        if |m| > key.Limit() then OutOfBounds
        else Prepend(m, Decrypt(key, s[key.size..]))
  }

  function Prepend(m: seq<byte>, r: Outcome<seq<byte>>): Outcome<seq<byte>> {
    if r.Done? then Done(m + r.value) else r
  }

  lemma PrependTwice(a: seq<byte>, b: seq<byte>, r: Outcome<seq<byte>>)
    ensures Prepend(a, Prepend(b, r)) == Prepend(a + b, r) && Prepend([], r) == r
  {
    if r.Done? {
      assert a + (b + r.value) == (a + b) + r.value && [] + r.value == r.value;
    }
  }

  lemma Associate(a: seq<byte>, b: seq<byte>, c: seq<byte>)
    ensures a + (b + c) == (a + b) + c && a + [] == a
  {
  }

  /** One turn of the loop of RSAEncrypt, on the text written before it. */
  lemma EncryptStep(key: RsaKey, done: seq<byte>, nonce: nat, src: seq<byte>)
    requires key.Usable() && src != []
    ensures
      var more, l := done + key.enc(nonce, Head(key.Limit(), src)), key.Limit();
      && (|src| <= l ==> done + Encrypt(key, nonce, src) == more)
      && (|src| > l ==> done + Encrypt(key, nonce, src) == more + Encrypt(key, nonce + 1, src[l..]))
  {
    Associate(done, key.enc(nonce, Head(key.Limit(), src)), Encrypt(key, nonce + 1, Tail(key.Limit(), src)));
  }

  method RSAEncrypt(key: RsaKey, text: seq<byte>, nonce: nat) returns (ret: int, toText: seq<byte>)
    requires key.Usable()
    ensures ret == 0 && toText == Encrypt(key, nonce, text)
  {
    toText := [];
    var src, limit, draw := text, key.size - OVERHEAD, nonce;
    while src != []
      invariant toText + Encrypt(key, draw, src) == Encrypt(key, nonce, text)
      decreases |src|
    {
      var split := if |src| < limit then |src| else limit;
      assert src[..split] == Head(limit, src);
      EncryptStep(key, toText, draw, src);
      toText := toText + key.enc(draw, src[..split]);
      if |src| <= limit {
        break;
      }
      src := src[limit..];
      draw := draw + 1;
    }
    ret := 0;
  }

  method RSADecrypt(key: RsaKey, text: seq<byte>) returns (r: Outcome<seq<byte>>)
    requires key.Usable()
    ensures r == Decrypt(key, text)
  {
    var toText, src := [], text;
    PrependTwice([], [], Decrypt(key, text));
    while src != []
      invariant Decrypt(key, text) == Prepend(toText, Decrypt(key, src))
      decreases |src|
    {
      if |src| < key.size {
        return OutOfBounds;
      }
      var block := key.dec(src[..key.size]);
      if block.None? {
        return Failed;
      }
      if |block.value| > key.size - OVERHEAD {
        return OutOfBounds;
      }
      PrependTwice(toText, block.value, Decrypt(key, src[key.size..]));
      toText := toText + block.value;
      src := src[key.size..];
    }
    assert toText + [] == toText;
    return Done(toText);
  }

  lemma {:induction false} CiphertextBlocks(key: RsaKey, nonce: nat, x: seq<byte>)
    requires key.Sound()
    ensures |Encrypt(key, nonce, x)| == |Chunks(key.Limit(), x)| * key.size
    decreases |x|
  {
    if x != [] {
      var tail := Tail(key.Limit(), x);
      HeadAndTail(key.Limit(), x);
      ChunksStep(key.Limit(), x);
      assert |key.enc(nonce, Head(key.Limit(), x))| == key.size;
      CiphertextBlocks(key, nonce + 1, tail);
      OneMoreBlock(|Chunks(key.Limit(), tail)|, key.size);
    }
  }

  lemma CiphertextLength(key: RsaKey, nonce: nat, x: seq<byte>)
    requires key.Sound()
    ensures |Encrypt(key, nonce, x)| == CeilDiv(|x|, key.size - 42) * key.size
  {
    CiphertextBlocks(key, nonce, x);
    ChunkCount(key.Limit(), x);
  }

  /** The ciphertext joins one block per chunk of the plaintext, in order, each with the next nonce. */
  lemma {:induction false} EncryptBlockwise(key: RsaKey, nonce: nat, x: seq<byte>) returns (blocks: seq<seq<byte>>)
    requires key.Usable()
    ensures Encrypt(key, nonce, x) == Flatten(blocks)
    ensures
      var xs := Chunks(key.size - 42, x);
      |blocks| == |xs| && forall i :: 0 <= i < |xs| ==> blocks[i] == key.enc(nonce + i, xs[i])
    decreases |x|
  {
    blocks := [];
    if x != [] {
      var first, tail := key.enc(nonce, Head(key.Limit(), x)), Tail(key.Limit(), x);
      HeadAndTail(key.Limit(), x);
      ChunksStep(key.Limit(), x);
      var rest := EncryptBlockwise(key, nonce + 1, tail);
      FlattenOne(first, rest);
      blocks := [first] + rest;
      var xs, xs' := Chunks(key.Limit(), x), Chunks(key.Limit(), tail);
      forall i | 0 <= i < |xs|
        ensures blocks[i] == key.enc(nonce + i, xs[i])
      {
        assert i > 0 ==> blocks[i] == rest[i - 1] && xs[i] == xs'[i - 1];
      }
    }
  }

  /** Decryption takes the blocks one by one. */
  lemma DecryptBlock(key: RsaKey, c: seq<byte>, m: seq<byte>, rest: seq<byte>)
    requires key.Usable() && |c| == key.size && key.dec(c) == Some(m) && |m| <= key.Limit()
    ensures Decrypt(key, c + rest) == Prepend(m, Decrypt(key, rest))
  {
    var s := c + rest;
    assert s[..key.size] == c && s[key.size..] == rest;
  }

  /** Decryption undoes encryption, whatever the random padding. */
  lemma {:induction false} DecryptOfEncrypt(key: RsaKey, nonce: nat, x: seq<byte>)
    requires key.Sound()
    ensures Decrypt(key, Encrypt(key, nonce, x)) == Done(x)
    decreases |x|
  {
    if x != [] {
      var first, tail := Head(key.Limit(), x), Tail(key.Limit(), x);
      HeadAndTail(key.Limit(), x);
      DecryptOfEncrypt(key, nonce + 1, tail);
      DecryptBlock(key, key.enc(nonce, first), first, Encrypt(key, nonce + 1, tail));
    }
  }

  // ---------------------------------------------- when decryption leaves its buffers

  /** A whole block that opens to at most size - 42 bytes. */
  predicate Opens(key: RsaKey, block: seq<byte>)
    requires key.Usable()
  {
    |block| == key.size && key.dec(block).Some? && |key.dec(block).value| <= key.size - 42
  }

  /** A block that is too short, or opens to more bytes than the buffer holds. */
  predicate Overruns(key: RsaKey, block: seq<byte>)
    requires key.Usable()
  {
    |block| < key.size || (key.dec(block).Some? && |key.dec(block).value| > key.size - 42)
  }

  /** Block n is the first that does not open, and it overruns. */
  predicate FirstOverrun(key: RsaKey, blocks: seq<seq<byte>>, n: nat)
    requires key.Usable()
  {
    n < |blocks| && Overruns(key, blocks[n]) && forall i :: 0 <= i < n ==> Opens(key, blocks[i])
  }

  lemma FirstOverrunShifts(key: RsaKey, first: seq<byte>, rest: seq<seq<byte>>, n: nat)
    requires key.Usable()
    ensures FirstOverrun(key, [first] + rest, 0) <==> Overruns(key, first)
    ensures FirstOverrun(key, [first] + rest, n + 1) <==> Opens(key, first) && FirstOverrun(key, rest, n)
  {
    var blocks := [first] + rest;
    assert blocks[1..] == rest;
    assert forall i :: 0 <= i < |rest| ==> blocks[i + 1] == rest[i];
    if FirstOverrun(key, blocks, n + 1) {
      assert Opens(key, blocks[0]);
      forall i | 0 <= i < n ensures Opens(key, rest[i]) {
        assert Opens(key, blocks[i + 1]);
      }
    }
    if Opens(key, first) && FirstOverrun(key, rest, n) {
      forall i | 0 <= i < n + 1 ensures Opens(key, blocks[i]) {
        assert i > 0 ==> blocks[i] == rest[i - 1];
      }
    }
  }

  lemma FirstOverrunStep(key: RsaKey, first: seq<byte>, rest: seq<seq<byte>>)
    requires key.Usable()
    ensures (exists n: nat :: FirstOverrun(key, [first] + rest, n)) <==>
            Overruns(key, first) || (Opens(key, first) && exists n: nat :: FirstOverrun(key, rest, n))
  {
    FirstOverrunShifts(key, first, rest, 0);
    if n: nat :| FirstOverrun(key, [first] + rest, n) && n > 0 {
      FirstOverrunShifts(key, first, rest, n - 1);
    }
    if n: nat :| FirstOverrun(key, rest, n) && Opens(key, first) {
      FirstOverrunShifts(key, first, rest, n);
    }
  }

  lemma DecryptStep(key: RsaKey, s: seq<byte>)
    requires key.Usable() && s != []
    ensures
      var first, rest := Head(key.size, s), Decrypt(key, Tail(key.size, s));
      && (Decrypt(key, s).OutOfBounds? <==> Overruns(key, first) || (Opens(key, first) && rest.OutOfBounds?))
      && (Decrypt(key, s).Done? <==> Opens(key, first) && rest.Done?)
  {
    if |s| >= key.size {
      assert Head(key.size, s) == s[..key.size] && Tail(key.size, s) == s[key.size..];
    }
  }

  /**
   Decryption leaves its buffers exactly when some block of the text is too short or opens to more
   than size - 42 bytes, while every block before it opens.
   */
  lemma {:induction false} DecryptOverruns(key: RsaKey, s: seq<byte>)
    requires key.Usable()
    ensures Decrypt(key, s).OutOfBounds? <==> exists n: nat :: FirstOverrun(key, Chunks(key.size, s), n)
    decreases |s|
  {
    if s != [] {
      var first, tail := Head(key.size, s), Tail(key.size, s);
      HeadAndTail(key.size, s);
      DecryptOverruns(key, tail);
      DecryptStep(key, s);
      ChunksStep(key.size, s);
      FirstOverrunStep(key, first, Chunks(key.size, tail));
    }
  }

  /** Decryption succeeds exactly when every block opens. */
  lemma {:induction false} DecryptSucceeds(key: RsaKey, s: seq<byte>)
    requires key.Usable()
    ensures Decrypt(key, s).Done? <==> forall block :: block in Chunks(key.size, s) ==> Opens(key, block)
    decreases |s|
  {
    if s != [] {
      HeadAndTail(key.size, s);
      DecryptSucceeds(key, Tail(key.size, s));
      DecryptStep(key, s);
      ChunksStep(key.size, s);
    }
  }

  /** What decryption yields: the opened blocks, joined in order. */
  lemma {:induction false} DecryptYields(key: RsaKey, s: seq<byte>) returns (plains: seq<seq<byte>>)
    requires key.Usable() && Decrypt(key, s).Done?
    ensures Decrypt(key, s).value == Flatten(plains)
    ensures
      var blocks := Chunks(key.size, s);
      |plains| == |blocks| && forall i :: 0 <= i < |blocks| ==> key.dec(blocks[i]) == Some(plains[i])
    decreases |s|
  {
    plains := [];
    if s != [] {
      var first, tail := Head(key.size, s), Tail(key.size, s);
      ChunksStep(key.size, s);
      DecryptStep(key, s);
      assert first == s[..key.size] && tail == s[key.size..];
      var rest := DecryptYields(key, tail);
      var m := key.dec(first).value;
      FlattenOne(m, rest);
      plains := [m] + rest;
    }
  }

  /** A padding without randomness: zeros, a one, the message. */
  function Padded(size: nat, m: seq<byte>): seq<byte> {
    if |m| < size then Zeros(size - 1 - |m|) + [1] + m else m
  }

  function Unpadded(c: seq<byte>): Option<seq<byte>> {
    if c == [] then None
    else if c[0] == 0 then Unpadded(c[1..])
    else Some(c[1..])
  }

  lemma {:induction false} UnpaddedOfZeros(n: nat, m: seq<byte>)
    ensures Unpadded(Zeros(n) + [1] + m) == Some(m)
  {
    var c := Zeros(n) + [1] + m;
    if n == 0 {
      assert c == [1] + m;
    } else {
      assert c[1..] == Zeros(n - 1) + [1] + m;
      UnpaddedOfZeros(n - 1, m);
    }
  }

  /** A sound key of the given size whose padding leaves room for size - 1 bytes. */
  function PaddingKey(size: nat): RsaKey {
    RsaKey(size, (nonce: nat, m) => Padded(size, m), c => Unpadded(c),
           m => Padded(size, m), (m, sig) => sig == Padded(size, m))
  }

  lemma PaddingFits(size: nat, m: seq<byte>)
    requires |m| < size
    ensures |Padded(size, m)| == size && Unpadded(Padded(size, m)) == Some(m)
  {
    UnpaddedOfZeros(size - 1 - |m|, m);
  }

  lemma PaddingKeyIsSound(size: nat)
    requires size > OVERHEAD
    ensures PaddingKey(size).Sound()
  {
    var key := PaddingKey(size);
    forall nonce: nat, m: seq<byte> | |m| <= key.Limit()
      ensures |key.enc(nonce, m)| == size && key.dec(key.enc(nonce, m)) == Some(m)
    {
      PaddingFits(size, m);
    }
    forall m: seq<byte> | |m| <= key.Limit()
      ensures |key.sign(m)| == size && key.verify(m, key.sign(m))
    {
      PaddingFits(size, m);
    }
  }

  /** Soundness does not exclude an overrun: for every size, one block that opens to size - 41 bytes. */
  lemma SoundKeyOverruns(size: nat, m: seq<byte>)
    requires size > 42 && |m| == size - 41
    ensures PaddingKey(size).Sound()
    ensures |Padded(size, m)| == size && PaddingKey(size).dec(Padded(size, m)) == Some(m)
    ensures Decrypt(PaddingKey(size), Padded(size, m)).OutOfBounds?
  {
    PaddingKeyIsSound(size);
    PaddingFits(size, m);
    var block := Padded(size, m);
    assert block[..size] == block;
  }

  // --------------------------------------------------- signing, verification

  function Sign(key: RsaKey, x: seq<byte>): seq<byte>
    requires key.Usable()
    decreases |x|
  {
    if x == [] then []
    else key.sign(Head(key.Limit(), x)) + Sign(key, Tail(key.Limit(), x))
  }

  /** The verdict of RSAVerify; the loop looks at the signature's size only after a block passed. */
  function Verify(key: RsaKey, sig: seq<byte>, src: seq<byte>): Outcome<bool>
    requires key.Usable()
    decreases |src|
  {
    if src == [] then Done(true)
    else if |sig| < key.size then OutOfBounds
    else if !key.verify(Head(key.Limit(), src), sig[..key.size]) then Done(false)
    else if |sig| == key.size then Done(true)
    else if |src| < key.Limit() then OutOfBounds
    else Verify(key, sig[key.size..], src[key.Limit()..])
  }

  /** One turn of the loop of RSASign. */
  lemma SignStep(key: RsaKey, done: seq<byte>, src: seq<byte>)
    requires key.Usable() && src != []
    ensures
      var more, l := done + key.sign(Head(key.Limit(), src)), key.Limit();
      && (|src| <= l ==> done + Sign(key, src) == more)
      && (|src| > l ==> done + Sign(key, src) == more + Sign(key, src[l..]))
  {
    Associate(done, key.sign(Head(key.Limit(), src)), Sign(key, Tail(key.Limit(), src)));
  }

  method RSASign(key: RsaKey, text: seq<byte>) returns (ret: int, sigText: seq<byte>)
    requires key.Usable()
    ensures ret == 0 && sigText == Sign(key, text)
  {
    sigText := [];
    var src, limit := text, key.size - OVERHEAD;
    while src != []
      invariant sigText + Sign(key, src) == Sign(key, text)
      decreases |src|
    {
      var split := if |src| < limit then |src| else limit;
      assert src[..split] == Head(limit, src);
      SignStep(key, sigText, src);
      sigText := sigText + key.sign(src[..split]);
      if |src| <= limit {
        break;
      }
      src := src[limit..];
    }
    ret := 0;
  }

  method RSAVerify(key: RsaKey, sigText: seq<byte>, srcText: seq<byte>) returns (r: Outcome<bool>)
    requires key.Usable()
    ensures r == Verify(key, sigText, srcText)
  {
    var src, sig, limit := srcText, sigText, key.size - OVERHEAD;
    while src != []
      invariant Verify(key, sig, src) == Verify(key, sigText, srcText)
      decreases |src|
    {
      var split := if |src| < limit then |src| else limit;
      assert src[..split] == Head(limit, src);
      if |sig| < key.size {
        return OutOfBounds;
      }
      if !key.verify(src[..split], sig[..key.size]) {
        return Done(false);
      }
      if |sig| == key.size {
        return Done(true);
      }
      if |src| < limit {
        return OutOfBounds;
      }
      src := src[limit..];
      sig := sig[key.size..];
    }
    return Done(true);
  }

  lemma {:induction false} SignatureBlocks(key: RsaKey, x: seq<byte>)
    requires key.Sound()
    ensures |Sign(key, x)| == |Chunks(key.Limit(), x)| * key.size
    decreases |x|
  {
    if x != [] {
      var tail := Tail(key.Limit(), x);
      HeadAndTail(key.Limit(), x);
      ChunksStep(key.Limit(), x);
      assert |key.sign(Head(key.Limit(), x))| == key.size;
      SignatureBlocks(key, tail);
      OneMoreBlock(|Chunks(key.Limit(), tail)|, key.size);
    }
  }

  lemma SignatureLength(key: RsaKey, x: seq<byte>)
    requires key.Sound()
    ensures |Sign(key, x)| == CeilDiv(|x|, key.size - 42) * key.size
  {
    SignatureBlocks(key, x);
    ChunkCount(key.Limit(), x);
  }

  /** The signature joins one block per chunk of the text, in order. */
  lemma {:induction false} SignBlockwise(key: RsaKey, x: seq<byte>) returns (blocks: seq<seq<byte>>)
    requires key.Usable()
    ensures Sign(key, x) == Flatten(blocks)
    ensures
      var xs := Chunks(key.size - 42, x);
      |blocks| == |xs| && forall i :: 0 <= i < |xs| ==> blocks[i] == key.sign(xs[i])
    decreases |x|
  {
    blocks := [];
    if x != [] {
      var first, tail := key.sign(Head(key.Limit(), x)), Tail(key.Limit(), x);
      HeadAndTail(key.Limit(), x);
      ChunksStep(key.Limit(), x);
      var rest := SignBlockwise(key, tail);
      FlattenOne(first, rest);
      blocks := [first] + rest;
      var xs, xs' := Chunks(key.Limit(), x), Chunks(key.Limit(), tail);
      forall i | 0 <= i < |xs|
        ensures blocks[i] == key.sign(xs[i])
      {
        assert i > 0 ==> blocks[i] == rest[i - 1] && xs[i] == xs'[i - 1];
      }
    }
  }

  /** RSAVerify accepts what RSASign made, the empty string included. */
  lemma {:induction false} VerifyOfSign(key: RsaKey, x: seq<byte>)
    requires key.Sound()
    ensures Verify(key, Sign(key, x), x) == Done(true)
    decreases |x|
  {
    var l := key.Limit();
    if x != [] {
      var s, c := Sign(key, x), key.sign(Head(l, x));
      assert |c| == key.size && key.verify(Head(l, x), c);
      if |x| <= l {
        assert s == c + [] == c && s[..key.size] == c;
      } else {
        var tail := Sign(key, x[l..]);
        VerifyOfSign(key, x[l..]);
        assert s == c + tail && s[..key.size] == c && s[key.size..] == tail;
      }
    }
  }

  /** The first n chunks of x verify against the first n blocks of sig. */
  predicate FirstVerify(key: RsaKey, sig: seq<byte>, x: seq<byte>, n: nat)
    requires key.Usable()
  {
    var xs, bs := Chunks(key.Limit(), x), Chunks(key.size, sig);
    n <= |xs| && n <= |bs| && forall i :: 0 <= i < n ==> key.verify(xs[i], bs[i])
  }

  lemma FirstVerifyStep(key: RsaKey, sig: seq<byte>, x: seq<byte>, n: nat)
    requires key.Usable() && x != [] && |sig| > key.size && n >= 1
    requires |x| > key.Limit() || n == 1
    ensures FirstVerify(key, sig, x, n) <==>
            key.verify(Head(key.Limit(), x), sig[..key.size])
            && (n == 1 || FirstVerify(key, sig[key.size..], x[key.Limit()..], n - 1))
  {
    var xs, bs := Chunks(key.Limit(), x), Chunks(key.size, sig);
    assert xs[0] == Head(key.Limit(), x) && bs[0] == sig[..key.size];
    if n > 1 {
      var xs', bs' := Chunks(key.Limit(), x[key.Limit()..]), Chunks(key.size, sig[key.size..]);
      assert xs == [xs[0]] + xs' && bs == [bs[0]] + bs';
      if FirstVerify(key, sig, x, n) {
        assert forall i :: 0 <= i < n - 1 ==> xs'[i] == xs[i + 1] && bs'[i] == bs[i + 1];
      }
    }
  }

  lemma {:induction false} WholeStep(n: nat, s: seq<byte>)
    requires n >= 1
    ensures |s| >= n ==> (|s| % n == 0 <==> |s[n..]| % n == 0)
    ensures |s| < n ==> (|s| % n == 0 <==> s == [])
  {
    if |s| >= n {
      ModMultiple(|s| - n, 1, n);
    } else {
      DivModUnique(|s|, n, 0, |s|);
    }
  }

  /**
   Besides an empty source there are two ways to be accepted: the signature is a whole number of
   blocks, at most as many as the source has chunks, and those first chunks verify; or there is
   more signature than chunks, the last chunk is full, and every chunk verifies.
   */
  predicate Acceptable(key: RsaKey, sig: seq<byte>, x: seq<byte>)
    requires key.Usable()
  {
    var chunks, blocks := |Chunks(key.Limit(), x)|, |Chunks(key.size, sig)|;
    || x == []
    || (sig != [] && |sig| % key.size == 0 && blocks <= chunks && FirstVerify(key, sig, x, blocks))
    || (blocks > chunks && |x| % key.Limit() == 0 && FirstVerify(key, sig, x, chunks))
  }

  lemma AcceptableStep(key: RsaKey, sig: seq<byte>, x: seq<byte>)
    requires key.Usable() && |x| > key.Limit() && |sig| > key.size
    ensures Acceptable(key, sig, x) <==>
            key.verify(Head(key.Limit(), x), sig[..key.size])
            && Acceptable(key, sig[key.size..], x[key.Limit()..])
  {
    var l, k := key.Limit(), key.size;
    WholeStep(k, sig);
    WholeStep(l, x);
    var chunks, blocks := |Chunks(l, x)|, |Chunks(k, sig)|;
    FirstVerifyStep(key, sig, x, if blocks <= chunks then blocks else chunks);
  }

  lemma AcceptableOneBlock(key: RsaKey, sig: seq<byte>, x: seq<byte>)
    requires key.Usable() && x != [] && |sig| == key.size
    ensures Acceptable(key, sig, x) <==> key.verify(Head(key.Limit(), x), sig)
  {
    WholeStep(key.size, sig);
    assert Chunks(key.Limit(), x)[0] == Head(key.Limit(), x);
    assert Chunks(key.size, sig) == [sig];
  }

  lemma AcceptableOneChunk(key: RsaKey, sig: seq<byte>, x: seq<byte>)
    requires key.Usable() && 0 < |x| <= key.Limit() && |sig| > key.size
    ensures Acceptable(key, sig, x) <==> key.verify(x, sig[..key.size]) && |x| == key.Limit()
  {
    WholeStep(key.Limit(), x);
    assert Chunks(key.size, sig)[0] == sig[..key.size];
    assert Chunks(key.Limit(), x) == [x];
  }

  lemma AcceptableShort(key: RsaKey, sig: seq<byte>, x: seq<byte>)
    requires key.Usable() && x != [] && |sig| < key.size
    ensures !Acceptable(key, sig, x)
  {
    WholeStep(key.size, sig);
  }

  /** Exactly when RSAVerify accepts, for every signature and source. */
  lemma {:induction false} VerifyAccepts(key: RsaKey, sig: seq<byte>, x: seq<byte>)
    requires key.Usable()
    ensures Verify(key, sig, x) == Done(true) <==> Acceptable(key, sig, x)
    decreases |x|
  {
    if x == [] {
    } else if |sig| < key.size {
      AcceptableShort(key, sig, x);
    } else if |sig| == key.size {
      AcceptableOneBlock(key, sig, x);
      assert sig[..key.size] == sig;
    } else if |x| <= key.Limit() {
      AcceptableOneChunk(key, sig, x);
    } else {
      AcceptableStep(key, sig, x);
      VerifyAccepts(key, sig[key.size..], x[key.Limit()..]);
    }
  }

  /** Block n of the signature is whole and fails to verify chunk n, every earlier pair verifies. */
  predicate Mismatch(key: RsaKey, sig: seq<byte>, x: seq<byte>, n: nat)
    requires key.Usable()
  {
    var xs, bs := Chunks(key.Limit(), x), Chunks(key.size, sig);
    && n < |xs| && n < |bs| && |bs[n]| == key.size && !key.verify(xs[n], bs[n])
    && FirstVerify(key, sig, x, n)
  }

  lemma MismatchHead(key: RsaKey, sig: seq<byte>, x: seq<byte>)
    requires key.Usable() && x != [] && sig != []
    ensures Mismatch(key, sig, x, 0) <==>
            |sig| >= key.size && !key.verify(Head(key.Limit(), x), sig[..key.size])
  {
    ChunksStep(key.Limit(), x);
    ChunksStep(key.size, sig);
    if |sig| >= key.size {
      assert Head(key.size, sig) == sig[..key.size];
    }
  }

  lemma MismatchTail(key: RsaKey, sig: seq<byte>, x: seq<byte>, n: nat)
    requires key.Usable() && |x| > key.Limit() && |sig| > key.size
    ensures Mismatch(key, sig, x, n + 1) <==>
            key.verify(Head(key.Limit(), x), sig[..key.size])
            && Mismatch(key, sig[key.size..], x[key.Limit()..], n)
  {
    FirstVerifyStep(key, sig, x, n + 1);
    var xs', bs' := Chunks(key.Limit(), x[key.Limit()..]), Chunks(key.size, sig[key.size..]);
    ChunksStep(key.Limit(), x);
    ChunksStep(key.size, sig);
    assert n < |xs'| ==> Chunks(key.Limit(), x)[n + 1] == xs'[n];
    assert n < |bs'| ==> Chunks(key.size, sig)[n + 1] == bs'[n];
  }

  lemma MismatchStep(key: RsaKey, sig: seq<byte>, x: seq<byte>)
    requires key.Usable() && |x| > key.Limit() && |sig| > key.size
    ensures (exists n: nat :: Mismatch(key, sig, x, n)) <==>
            || !key.verify(Head(key.Limit(), x), sig[..key.size])
            || exists n: nat :: Mismatch(key, sig[key.size..], x[key.Limit()..], n)
  {
    MismatchHead(key, sig, x);
    if n: nat :| Mismatch(key, sig, x, n) && n > 0 {
      MismatchTail(key, sig, x, n - 1);
    }
    if n: nat :| Mismatch(key, sig[key.size..], x[key.Limit()..], n) {
      MismatchTail(key, sig, x, n);
    }
  }

  lemma MismatchFirst(key: RsaKey, sig: seq<byte>, x: seq<byte>)
    requires key.Usable() && (|x| <= key.Limit() || |sig| <= key.size)
    ensures (exists n: nat :: Mismatch(key, sig, x, n)) <==>
            x != [] && |sig| >= key.size && !key.verify(Head(key.Limit(), x), sig[..key.size])
  {
    if x != [] && sig != [] {
      MismatchHead(key, sig, x);
      ChunksStep(key.Limit(), x);
      ChunksStep(key.size, sig);
      assert |Chunks(key.Limit(), x)| == 1 || |Chunks(key.size, sig)| == 1;
      assert forall n: nat :: Mismatch(key, sig, x, n) ==> n == 0;
    }
  }

  /** Exactly when RSAVerify rejects: some whole block does not verify its chunk, and it is reached. */
  lemma {:induction false} VerifyRejects(key: RsaKey, sig: seq<byte>, x: seq<byte>)
    requires key.Usable()
    ensures Verify(key, sig, x) == Done(false) <==> exists n: nat :: Mismatch(key, sig, x, n)
    decreases |x|
  {
    if |x| <= key.Limit() || |sig| <= key.size {
      MismatchFirst(key, sig, x);
    } else {
      MismatchStep(key, sig, x);
      VerifyRejects(key, sig[key.size..], x[key.Limit()..]);
    }
  }

  /**
   The verified part of the signature stops in the middle of a block that a chunk still needs, or
   the last chunk is not full and there is more signature than chunks.
   */
  predicate RunsOut(key: RsaKey, sig: seq<byte>, x: seq<byte>)
    requires key.Usable()
  {
    DivFits(|sig|, key.size);
    var chunks, blocks, whole := |Chunks(key.Limit(), x)|, |Chunks(key.size, sig)|, |sig| / key.size;
    || ((sig == [] || |sig| % key.size != 0) && whole < chunks && FirstVerify(key, sig, x, whole))
    || (blocks > chunks >= 1 && |x| % key.Limit() != 0 && FirstVerify(key, sig, x, chunks))
  }

  lemma RunsOutStep(key: RsaKey, sig: seq<byte>, x: seq<byte>)
    requires key.Usable() && |x| > key.Limit() && |sig| > key.size
    ensures RunsOut(key, sig, x) <==>
            key.verify(Head(key.Limit(), x), sig[..key.size])
            && RunsOut(key, sig[key.size..], x[key.Limit()..])
  {
    var l, k := key.Limit(), key.size;
    DivFits(|sig|, k);
    ModMultiple(|sig| - k, 1, k);
    WholeStep(k, sig);
    WholeStep(l, x);
    var chunks, whole := |Chunks(l, x)|, |sig| / k;
    FirstVerifyStep(key, sig, x, whole);
    FirstVerifyStep(key, sig, x, chunks);
  }

  lemma RunsOutShort(key: RsaKey, sig: seq<byte>, x: seq<byte>)
    requires key.Usable() && x != [] && |sig| < key.size
    ensures RunsOut(key, sig, x)
  {
    ChunksStep(key.Limit(), x);
    DivModUnique(|sig|, key.size, 0, |sig|);
  }

  lemma RunsOutOneBlock(key: RsaKey, sig: seq<byte>, x: seq<byte>)
    requires key.Usable() && x != [] && |sig| == key.size
    ensures !RunsOut(key, sig, x)
  {
    ChunksStep(key.Limit(), x);
    DivModUnique(|sig|, key.size, 1, 0);
    assert Chunks(key.size, sig) == [sig];
  }

  lemma SomeWholeBlock(x: nat, k: nat)
    requires x >= k >= 1
    ensures x / k >= 1
  {
    DivFits(x - k, k);
    ModMultiple(x - k, 1, k);
  }

  lemma FullOrNot(x: nat, n: nat)
    requires 0 < x <= n
    ensures x % n == 0 <==> x == n
  {
    if x == n {
      DivModUnique(x, n, 1, 0);
    } else {
      DivModUnique(x, n, 0, x);
    }
  }

  lemma RunsOutOneChunk(key: RsaKey, sig: seq<byte>, x: seq<byte>)
    requires key.Usable() && 0 < |x| <= key.Limit() && |sig| > key.size
    ensures RunsOut(key, sig, x) <==> |x| < key.Limit() && key.verify(x, sig[..key.size])
  {
    assert Chunks(key.Limit(), x) == [x];
    assert Chunks(key.size, sig)[0] == sig[..key.size];
    SomeWholeBlock(|sig|, key.size);
    FullOrNot(|x|, key.Limit());
  }

  /** Exactly when RSAVerify leaves its strings. It never ends in any other way than these three. */
  lemma {:induction false} VerifyRunsOut(key: RsaKey, sig: seq<byte>, x: seq<byte>)
    requires key.Usable()
    ensures Verify(key, sig, x) == OutOfBounds <==> RunsOut(key, sig, x)
    ensures Verify(key, sig, x) != Failed
    decreases |x|
  {
    if x == [] {
    } else if |sig| < key.size {
      RunsOutShort(key, sig, x);
    } else if |sig| == key.size {
      RunsOutOneBlock(key, sig, x);
    } else if |x| <= key.Limit() {
      RunsOutOneChunk(key, sig, x);
    } else {
      RunsOutStep(key, sig, x);
      VerifyRunsOut(key, sig[key.size..], x[key.Limit()..]);
    }
  }

  /** With a signature of the length RSASign gives, acceptance means that every chunk verifies. */
  lemma VerifyExactLength(key: RsaKey, sig: seq<byte>, x: seq<byte>)
    requires key.Usable() && |sig| == CeilDiv(|x|, key.Limit()) * key.size
    ensures |Chunks(key.size, sig)| == |Chunks(key.Limit(), x)|
    ensures Verify(key, sig, x) == Done(true) <==> FirstVerify(key, sig, x, |Chunks(key.Limit(), x)|)
  {
    var l, k := key.Limit(), key.size;
    var m := CeilDiv(|x|, l);
    ChunkCount(l, x);
    ChunkCount(k, sig);
    DivModUnique(|sig|, k, m, 0);
    DivModUnique(|sig| + k - 1, k, m, k - 1);
    MulAtLeast(m, k);
    VerifyAccepts(key, sig, x);
  }

  /**
   For other lengths: an accepted signature covers the whole source exactly when it has at least as
   many blocks as the source has chunks.
   */
  lemma AcceptanceCoversSource(key: RsaKey, sig: seq<byte>, x: seq<byte>)
    requires key.Usable() && Verify(key, sig, x) == Done(true)
    ensures FirstVerify(key, sig, x, |Chunks(key.Limit(), x)|) <==>
            |Chunks(key.size, sig)| >= |Chunks(key.Limit(), x)|
  {
    VerifyAccepts(key, sig, x);
  }

  /** With fewer it does not: one verified block accepts any source that starts with its chunk. */
  lemma OneBlockIsEnough(key: RsaKey, x: seq<byte>)
    requires key.Sound() && |x| > key.Limit()
    ensures var sig := key.sign(x[..key.Limit()]);
            && Verify(key, sig, x) == Done(true)
            && !FirstVerify(key, sig, x, |Chunks(key.Limit(), x)|)
  {
    var c := key.sign(x[..key.Limit()]);
    assert c[..key.size] == c && Chunks(key.size, c) == [c];
    assert |Chunks(key.Limit(), x[key.Limit()..])| >= 1;
  }

  // ---------------------------------------------------------------- digests

  /** A, B, C and D of the MD5 context. */
  datatype Md5State = Md5State(a: nat, b: nat, c: nat, d: nat)

  const MD5_DIGEST_LENGTH: nat := 16

  ghost predicate Md5Sound(md5: BlockHash<Md5State>) {
    forall h :: |md5.output(h)| == MD5_DIGEST_LENGTH
  }

  /** MD5_Final returns 1 and that status is used as the length of the digest. */
  function Md5Key(md5: BlockHash<Md5State>, text: seq<byte>): seq<byte> {
    Head(1, OneShot(md5, text))
  }

  /** The first byte of the digest of the text, alone. */
  ghost predicate IsKeptDigest(md5: BlockHash<Md5State>, text: seq<byte>, kept: seq<byte>) {
    exists md :: IsDigest(md5, text, md) && md != [] && kept == [md[0]]
  }

  lemma Md5KeyIsKept(md5: BlockHash<Md5State>, text: seq<byte>, kept: seq<byte>)
    requires Md5Sound(md5)
    ensures Md5Key(md5, text) == kept <==> IsKeptDigest(md5, text, kept)
  {
    var md := OneShot(md5, text);
    OneShotIsDigest(md5, text);
    assert |md| == MD5_DIGEST_LENGTH && md[..1] == [md[0]];
    if IsKeptDigest(md5, text, kept) {
      var other :| IsDigest(md5, text, other) && other != [] && kept == [other[0]];
      DigestIsUnique(md5, text, other);
    }
  }

  method MD5Encrypt(md5: BlockHash<Md5State>, text: seq<byte>) returns (ret: int, toText: seq<byte>)
    requires Md5Sound(md5) && |text| < TWO64
    ensures ret == 0 && toText == Md5Key(md5, text) && |toText| == 1
    ensures IsKeptDigest(md5, text, toText)
  {
    var ctx := new HashContext(md5);
    ret := ctx.Update(text);
    assert [] + text == text;
    var digest := ctx.Final();
    ret := 1;
    toText := digest[..ret];
    Md5KeyIsKept(md5, text, toText);
    ret := 0;
  }
}

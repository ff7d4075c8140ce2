/**
 Vouchers and tickets as spa_tool.cpp seals and opens them. Keys, digest and serialization are
 gathered in a suite whose soundness is assumed only where a theorem says so.
 */
module SpaTools {
  import opened Words
  import opened HashStream
  import opened RsaChunks

  datatype Ticket = Ticket(ip: string, timestamp: nat, random: nat, validSeconds: nat)
  datatype TicketPacket = TicketPacket(encData: seq<byte>, md5Data: seq<byte>, signData: seq<byte>)

  datatype Account = Account(acc: string, pwd: string)
  datatype Voucher = Voucher(account: Account, mac: string, address: string, timestamp: nat, random: nat)
  datatype VoucherPacket = VoucherPacket(encData: seq<byte>, md5Data: seq<byte>)

  datatype Suite = Suite(
    controller: RsaKey,
    gateway: RsaKey,
    md5: BlockHash<Md5State>,
    ticketText: Ticket -> seq<byte>,
    parseTicket: seq<byte> -> Ticket,
    voucherText: Voucher -> seq<byte>,
    parseVoucher: seq<byte> -> Voucher)
  {
    predicate Usable() {
      controller.Usable() && gateway.Usable()
    }

    /** Inverse block operations, inverse serialization, a 16-byte digest. */
    ghost predicate Sound() {
      && controller.Sound() && gateway.Sound() && Md5Sound(md5)
      && (forall t :: parseTicket(ticketText(t)) == t)
      && (forall v :: parseVoucher(voucherText(v)) == v)
    }
  }

  function EncryptVoucher(suite: Suite, v: Voucher, nonce: nat): VoucherPacket
    requires suite.Usable()
  {
    var text := suite.voucherText(v);
    VoucherPacket(Encrypt(suite.controller, nonce, text), Md5Key(suite.md5, text))
  }

  function DecryptVoucher(suite: Suite, p: VoucherPacket): Outcome<Voucher>
    requires suite.Usable()
  {
    match Decrypt(suite.controller, p.encData)
    case Failed => Failed
    case OutOfBounds => OutOfBounds
    case Done(text) =>
      if Md5Key(suite.md5, text) != p.md5Data then Failed
      else Done(suite.parseVoucher(text))
  }

  function EncryptTicket(suite: Suite, t: Ticket, nonce: nat): TicketPacket
    requires suite.Usable()
  {
    var text := suite.ticketText(t);
    TicketPacket(Encrypt(suite.gateway, nonce, text), Md5Key(suite.md5, text), Sign(suite.controller, text))
  }

  function DecryptTicket(suite: Suite, p: TicketPacket): Outcome<Ticket>
    requires suite.Usable()
  {
    match Decrypt(suite.gateway, p.encData)
    case Failed => Failed
    case OutOfBounds => OutOfBounds
    case Done(text) =>
      if Md5Key(suite.md5, text) != p.md5Data then Failed
      else match Verify(suite.controller, p.signData, text)
        case Failed => Failed
        case OutOfBounds => OutOfBounds
        case Done(ok) => if ok then Done(suite.parseTicket(text)) else Failed
  }

  /** text is encrypted chunk by chunk with the nonces from `nonce` on, into encData. */
  ghost predicate IsSealed(key: RsaKey, nonce: nat, text: seq<byte>, encData: seq<byte>)
    requires key.Usable()
  {
    exists blocks: seq<seq<byte>> ::
      var xs := Chunks(key.size - 42, text);
      && |blocks| == |xs| && encData == Flatten(blocks)
      && forall i :: 0 <= i < |xs| ==> blocks[i] == key.enc(nonce + i, xs[i])
  }

  /** text is signed chunk by chunk into signData. */
  ghost predicate IsSigned(key: RsaKey, text: seq<byte>, signData: seq<byte>)
    requires key.Usable()
  {
    exists blocks: seq<seq<byte>> ::
      var xs := Chunks(key.size - 42, text);
      && |blocks| == |xs| && signData == Flatten(blocks)
      && forall i :: 0 <= i < |xs| ==> blocks[i] == key.sign(xs[i])
  }

  lemma EncryptSeals(key: RsaKey, nonce: nat, text: seq<byte>)
    requires key.Usable()
    ensures IsSealed(key, nonce, text, Encrypt(key, nonce, text))
  {
    var blocks := EncryptBlockwise(key, nonce, text);
  }

  lemma SignSigns(key: RsaKey, text: seq<byte>)
    requires key.Usable()
    ensures IsSigned(key, text, Sign(key, text))
  {
    var blocks := SignBlockwise(key, text);
  }

  /** A voucher goes out encrypted for the controller, with the first digest byte of its text. */
  lemma VoucherSeals(suite: Suite, v: Voucher, nonce: nat)
    requires suite.Usable() && Md5Sound(suite.md5)
    ensures
      var p, text := EncryptVoucher(suite, v, nonce), suite.voucherText(v);
      IsSealed(suite.controller, nonce, text, p.encData) && IsKeptDigest(suite.md5, text, p.md5Data)
  {
    var text := suite.voucherText(v);
    EncryptSeals(suite.controller, nonce, text);
    Md5KeyIsKept(suite.md5, text, Md5Key(suite.md5, text));
  }

  /** A ticket goes out encrypted for the gateway, with that byte and signed by the controller. */
  lemma TicketSeals(suite: Suite, t: Ticket, nonce: nat)
    requires suite.Usable() && Md5Sound(suite.md5)
    ensures
      var p, text := EncryptTicket(suite, t, nonce), suite.ticketText(t);
      && IsSealed(suite.gateway, nonce, text, p.encData)
      && IsKeptDigest(suite.md5, text, p.md5Data)
      && IsSigned(suite.controller, text, p.signData)
  {
    var text := suite.ticketText(t);
    EncryptSeals(suite.gateway, nonce, text);
    SignSigns(suite.controller, text);
    Md5KeyIsKept(suite.md5, text, Md5Key(suite.md5, text));
  }

  /** Opening undoes sealing. */
  lemma VoucherRoundTrip(suite: Suite, v: Voucher, nonce: nat)
    requires suite.Sound()
    ensures DecryptVoucher(suite, EncryptVoucher(suite, v, nonce)) == Done(v)
  {
    DecryptOfEncrypt(suite.controller, nonce, suite.voucherText(v));
  }

  lemma TicketRoundTrip(suite: Suite, t: Ticket, nonce: nat)
    requires suite.Sound()
    ensures DecryptTicket(suite, EncryptTicket(suite, t, nonce)) == Done(t)
  {
    DecryptOfEncrypt(suite.gateway, nonce, suite.ticketText(t));
    VerifyOfSign(suite.controller, suite.ticketText(t));
  }

  /** A ticket that opens carries a text that the signature is acceptable for. */
  lemma OpenedTicketIsSigned(suite: Suite, p: TicketPacket)
    requires suite.Usable()
    ensures DecryptTicket(suite, p).Done? <==>
            && Decrypt(suite.gateway, p.encData).Done?
            && Md5Key(suite.md5, Decrypt(suite.gateway, p.encData).value) == p.md5Data
            && Acceptable(suite.controller, p.signData, Decrypt(suite.gateway, p.encData).value)
  {
    if Decrypt(suite.gateway, p.encData).Done? {
      VerifyAccepts(suite.controller, p.signData, Decrypt(suite.gateway, p.encData).value);
    }
  }

  /** A voucher knock runs out of bounds exactly when its encrypted data has an overrunning block that is reached. */
  lemma VoucherOverruns(suite: Suite, p: VoucherPacket)
    requires suite.Usable()
    ensures DecryptVoucher(suite, p).OutOfBounds? <==>
            exists n: nat :: FirstOverrun(suite.controller, Chunks(suite.controller.size, p.encData), n)
  {
    DecryptOverruns(suite.controller, p.encData);
  }

  /** A voucher opens exactly when its data decrypts to a text whose first digest byte it carries. */
  lemma VoucherOpens(suite: Suite, p: VoucherPacket, v: Voucher)
    requires suite.Usable() && Md5Sound(suite.md5)
    ensures DecryptVoucher(suite, p) == Done(v) <==>
            exists text :: Decrypt(suite.controller, p.encData) == Done(text)
                           && IsKeptDigest(suite.md5, text, p.md5Data) && v == suite.parseVoucher(text)
    ensures DecryptVoucher(suite, p) == Failed <==>
            || Decrypt(suite.controller, p.encData) == Failed
            || exists text :: Decrypt(suite.controller, p.encData) == Done(text)
                              && !IsKeptDigest(suite.md5, text, p.md5Data)
  {
    var plain := Decrypt(suite.controller, p.encData);
    if plain.Done? {
      Md5KeyIsKept(suite.md5, plain.value, p.md5Data);
    }
  }

  /** The encrypted data admits one digest only: a voucher does not open with any other. */
  lemma VoucherFixesDigest(suite: Suite, p: VoucherPacket, q: VoucherPacket)
    requires suite.Usable() && p.encData == q.encData
    requires DecryptVoucher(suite, p).Done? && DecryptVoucher(suite, q).Done?
    ensures p == q
  {
  }

  /** When a ticket opens, and to what. */
  lemma TicketOpens(suite: Suite, p: TicketPacket, t: Ticket)
    requires suite.Usable() && Md5Sound(suite.md5)
    ensures DecryptTicket(suite, p) == Done(t) <==>
            exists text :: Decrypt(suite.gateway, p.encData) == Done(text)
                           && IsKeptDigest(suite.md5, text, p.md5Data)
                           && Acceptable(suite.controller, p.signData, text) && t == suite.parseTicket(text)
  {
    var plain := Decrypt(suite.gateway, p.encData);
    if plain.Done? {
      Md5KeyIsKept(suite.md5, plain.value, p.md5Data);
      VerifyAccepts(suite.controller, p.signData, plain.value);
    }
  }

  /** A ticket is refused when its data does not decrypt, its digest is wrong or a block fails to verify. */
  lemma TicketFails(suite: Suite, p: TicketPacket)
    requires suite.Usable() && Md5Sound(suite.md5)
    ensures DecryptTicket(suite, p) == Failed <==>
            || Decrypt(suite.gateway, p.encData) == Failed
            || exists text :: Decrypt(suite.gateway, p.encData) == Done(text)
                              && (IsKeptDigest(suite.md5, text, p.md5Data) ==>
                                    exists n: nat :: Mismatch(suite.controller, p.signData, text, n))
  {
    var plain := Decrypt(suite.gateway, p.encData);
    if plain.Done? {
      Md5KeyIsKept(suite.md5, plain.value, p.md5Data);
      VerifyRejects(suite.controller, p.signData, plain.value);
      VerifyRunsOut(suite.controller, p.signData, plain.value);
    }
  }

  /** It runs out of bounds in its encrypted data, or with a right digest in its signature. */
  lemma TicketOverruns(suite: Suite, p: TicketPacket)
    requires suite.Usable() && Md5Sound(suite.md5)
    ensures DecryptTicket(suite, p).OutOfBounds? <==>
            || (exists n: nat :: FirstOverrun(suite.gateway, Chunks(suite.gateway.size, p.encData), n))
            || exists text :: Decrypt(suite.gateway, p.encData) == Done(text)
                              && IsKeptDigest(suite.md5, text, p.md5Data)
                              && RunsOut(suite.controller, p.signData, text)
  {
    DecryptOverruns(suite.gateway, p.encData);
    var plain := Decrypt(suite.gateway, p.encData);
    if plain.Done? {
      Md5KeyIsKept(suite.md5, plain.value, p.md5Data);
      VerifyRunsOut(suite.controller, p.signData, plain.value);
    }
  }

  /** The digest kept in an opened packet is a single byte. */
  lemma KeptDigestIsOneByte(suite: Suite, p: VoucherPacket)
    requires suite.Usable() && Md5Sound(suite.md5) && DecryptVoucher(suite, p).Done?
    ensures |p.md5Data| == 1
  {
    var text := Decrypt(suite.controller, p.encData).value;
    assert |OneShot(suite.md5, text)| == MD5_DIGEST_LENGTH;
  }
}

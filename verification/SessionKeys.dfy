/** What the session keys depend on: the secret, the transcript hash and their own place in the key material. */
module SessionKeys {
  import opened Octets
  import opened Hkdf
  import opened Wire
  import opened Handshake

  /** Two different pairs of key and input with one authentication code. */
  predicate MacCollides(mac: Mac, x: (Bytes, Bytes), y: (Bytes, Bytes)) {
    x != y && mac(x.0, x.1) == mac(y.0, y.1)
  }

  /** The extraction pair: salted with the transcript hash. */
  function Extraction(secret: Digest, th: Digest): (Bytes, Bytes) {
    (th, secret)
  }

  /** What the expansion authenticates for one block: the block before, the domain and hash, the block's number. */
  function BlockInput(mac: Mac, secret: Digest, th: Digest, previous: Bytes, n: byte): (Bytes, Bytes) {
    (mac(th, secret), previous + [1, 0x35, 0, 32] + th + [n])
  }

  /** Sections 2.2 and 2.3 of RFC 5869 for this protocol, with every byte named. */
  lemma {:induction false} MaterialBlocks(mac: Mac, secret: Digest, th: Digest)
    ensures var prk := mac(th, secret);
      var info := [1, 0x35, 0, 32] + th;
      && SessionKey(mac, secret, th) == mac(prk, info + [1])
      && ConfirmA(mac, secret, th) == mac(prk, SessionKey(mac, secret, th) + info + [2])
      && ConfirmB(mac, secret, th) == mac(prk, ConfirmA(mac, secret, th) + info + [3])
  {
    hide T, Expanded;
    var prk, info := mac(th, secret), TagInput(DOMAIN_UAV_AKE, th);
    assert info == [1, 0x35, 0, 32] + th;
    var t1: Bytes := mac(prk, info + [1]);
    var t2: Bytes := mac(prk, t1 + info + [2]);
    var t3: Bytes := mac(prk, t2 + info + [3]);
    ExpandedStart(mac, prk, info);
    assert [] + info + [1] == info + [1];
    ExpandedNext(mac, prk, info, 0, t1);
    ExpandedNext(mac, prk, info, 1, t2);
    ExpandedNext(mac, prk, info, 2, t3);
    assert Expanded(mac, prk, info, 3) == t1 + t2 + t3;
    assert KeyMaterial(mac, secret, th) == t1 + t2 + t3;
  }

  lemma BlockInputDetermines(mac: Mac, secret: Digest, th: Digest, previous: Bytes, n: byte,
      secret': Digest, th': Digest, previous': Bytes, n': byte)
    requires BlockInput(mac, secret, th, previous, n).1 == BlockInput(mac, secret', th', previous', n').1
    ensures n == n' && th == th' && previous == previous'
  {
    var x, y := BlockInput(mac, secret, th, previous, n).1, BlockInput(mac, secret', th', previous', n').1;
    assert x[|x| - 1] == n && x[|x| - 33..|x| - 1] == th && x[..|x| - 37] == previous;
    assert y[|y| - 1] == n' && y[|y| - 33..|y| - 1] == th' && y[..|y| - 37] == previous';
  }

  /** One block from two sessions means one secret, one transcript hash and one place, or a named collision. */
  lemma {:induction false} BlockBinds(mac: Mac, secret: Digest, th: Digest, previous: Bytes, n: byte,
      secret': Digest, th': Digest, previous': Bytes, n': byte)
    requires var x := BlockInput(mac, secret, th, previous, n);
      var y := BlockInput(mac, secret', th', previous', n');
      mac(x.0, x.1) == mac(y.0, y.1) && !MacCollides(mac, x, y)
    requires !MacCollides(mac, Extraction(secret, th), Extraction(secret', th'))
    ensures secret == secret' && th == th' && previous == previous' && n == n'
  {
    BlockInputDetermines(mac, secret, th, previous, n, secret', th', previous', n');
  }

  function SessionKeyInput(mac: Mac, secret: Digest, th: Digest): (Bytes, Bytes) {
    BlockInput(mac, secret, th, [], 1)
  }

  function ConfirmAInput(mac: Mac, secret: Digest, th: Digest): (Bytes, Bytes) {
    BlockInput(mac, secret, th, SessionKey(mac, secret, th), 2)
  }

  function ConfirmBInput(mac: Mac, secret: Digest, th: Digest): (Bytes, Bytes) {
    BlockInput(mac, secret, th, ConfirmA(mac, secret, th), 3)
  }

  /** Each third of the key material is the code of its own input. */
  lemma {:induction false} ThirdsAreBlocks(mac: Mac, secret: Digest, th: Digest)
    ensures var x := SessionKeyInput(mac, secret, th);
      SessionKey(mac, secret, th) == mac(x.0, x.1)
    ensures var x := ConfirmAInput(mac, secret, th);
      ConfirmA(mac, secret, th) == mac(x.0, x.1)
    ensures var x := ConfirmBInput(mac, secret, th);
      ConfirmB(mac, secret, th) == mac(x.0, x.1)
  {
    hide SessionKey, ConfirmA, ConfirmB;
    MaterialBlocks(mac, secret, th);
    var info := [1, 0x35, 0, 32] + th;
    var k, a := SessionKey(mac, secret, th), ConfirmA(mac, secret, th);
    assert [] + [1, 0x35, 0, 32] + th + [1] == info + [1];
    assert k + [1, 0x35, 0, 32] + th + [2] == k + info + [2];
    assert a + [1, 0x35, 0, 32] + th + [3] == a + info + [3];
  }

  /** Equal session keys mean one secret and one transcript hash, or a named pair of inputs collides. */
  lemma {:induction false} SessionKeyBinds(mac: Mac, secret: Digest, th: Digest, secret': Digest, th': Digest)
    requires SessionKey(mac, secret, th) == SessionKey(mac, secret', th')
    requires !MacCollides(mac, SessionKeyInput(mac, secret, th), SessionKeyInput(mac, secret', th'))
    requires !MacCollides(mac, Extraction(secret, th), Extraction(secret', th'))
    ensures secret == secret' && th == th'
  {
    hide SessionKey, BlockInput, Extraction;
    ThirdsAreBlocks(mac, secret, th);
    ThirdsAreBlocks(mac, secret', th');
    BlockBinds(mac, secret, th, [], 1, secret', th', [], 1);
  }

  /** The same of the initiator's confirmation keys. */
  lemma {:induction false} ConfirmABinds(mac: Mac, secret: Digest, th: Digest, secret': Digest, th': Digest)
    requires ConfirmA(mac, secret, th) == ConfirmA(mac, secret', th')
    requires !MacCollides(mac, ConfirmAInput(mac, secret, th), ConfirmAInput(mac, secret', th'))
    requires !MacCollides(mac, Extraction(secret, th), Extraction(secret', th'))
    ensures secret == secret' && th == th'
  {
    hide SessionKey, ConfirmA, BlockInput, Extraction;
    ThirdsAreBlocks(mac, secret, th);
    ThirdsAreBlocks(mac, secret', th');
    BlockBinds(mac, secret, th, SessionKey(mac, secret, th), 2, secret', th', SessionKey(mac, secret', th'), 2);
  }

  /** The same of the responder's confirmation keys. */
  lemma {:induction false} ConfirmBBinds(mac: Mac, secret: Digest, th: Digest, secret': Digest, th': Digest)
    requires ConfirmB(mac, secret, th) == ConfirmB(mac, secret', th')
    requires !MacCollides(mac, ConfirmBInput(mac, secret, th), ConfirmBInput(mac, secret', th'))
    requires !MacCollides(mac, Extraction(secret, th), Extraction(secret', th'))
    ensures secret == secret' && th == th'
  {
    hide ConfirmA, ConfirmB, BlockInput, Extraction;
    ThirdsAreBlocks(mac, secret, th);
    ThirdsAreBlocks(mac, secret', th');
    BlockBinds(mac, secret, th, ConfirmA(mac, secret, th), 3, secret', th', ConfirmA(mac, secret', th'), 3);
  }

  /** The three keys, of one session or of two, never alias one another, or a named pair of inputs collides. */
  lemma {:induction false} ThirdsAreSeparate(mac: Mac, secret: Digest, th: Digest, secret': Digest, th': Digest)
    ensures SessionKey(mac, secret, th) == ConfirmA(mac, secret', th')
        ==> MacCollides(mac, SessionKeyInput(mac, secret, th), ConfirmAInput(mac, secret', th'))
    ensures SessionKey(mac, secret, th) == ConfirmB(mac, secret', th')
        ==> MacCollides(mac, SessionKeyInput(mac, secret, th), ConfirmBInput(mac, secret', th'))
    ensures ConfirmA(mac, secret, th) == ConfirmB(mac, secret', th')
        ==> MacCollides(mac, ConfirmAInput(mac, secret, th), ConfirmBInput(mac, secret', th'))
  {
    hide SessionKey, ConfirmA, ConfirmB, BlockInput;
    ThirdsAreBlocks(mac, secret, th);
    ThirdsAreBlocks(mac, secret', th');
    if SessionKeyInput(mac, secret, th) == ConfirmAInput(mac, secret', th') {
      BlockInputDetermines(mac, secret, th, [], 1, secret', th', SessionKey(mac, secret', th'), 2);
    }
    if SessionKeyInput(mac, secret, th) == ConfirmBInput(mac, secret', th') {
      BlockInputDetermines(mac, secret, th, [], 1, secret', th', ConfirmA(mac, secret', th'), 3);
    }
    if ConfirmAInput(mac, secret, th) == ConfirmBInput(mac, secret', th') {
      BlockInputDetermines(mac, secret, th, SessionKey(mac, secret, th), 2, secret', th',
                           ConfirmA(mac, secret', th'), 3);
    }
  }

  /** Two sessions never share a session key: equal keys are of one transcript, or a named pair of inputs collides. */
  lemma {:induction false} SessionsHaveOwnKeys(u: Setup, t: Transcript, secret: Digest, t': Transcript, secret': Digest)
    requires SessionKey(u.mac, secret, Th(u, t)) == SessionKey(u.mac, secret', Th(u, t'))
    requires !MacCollides(u.mac, SessionKeyInput(u.mac, secret, Th(u, t)), SessionKeyInput(u.mac, secret', Th(u, t')))
    requires !MacCollides(u.mac, Extraction(secret, Th(u, t)), Extraction(secret', Th(u, t')))
    requires var (a, b) := (TranscriptInput(t.sid, t.m0, t.m1, t.m2, t.inner),
                            TranscriptInput(t'.sid, t'.m0, t'.m1, t'.m2, t'.inner));
      u.sha(a) == u.sha(b) ==> a == b
    ensures t == t' && secret == secret'
  {
    hide SessionKey, SessionKeyInput, Extraction, TranscriptInput;
    SessionKeyBinds(u.mac, secret, Th(u, t), secret', Th(u, t'));
    TranscriptBinds(t.sid, t.m0, t.m1, t.m2, t.inner, t'.sid, t'.m0, t'.m1, t'.m2, t'.inner);
  }
}

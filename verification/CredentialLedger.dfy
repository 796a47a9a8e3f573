/** The Fabric chaincode: a credential table and its TID index inside one flat key space. */
module CredentialLedger {
  import opened Octets

  datatype Credential = Credential(
    identityHash: string, slot: u16, tid: string, publicKey: string, w: string, verifyHash: string)

  /** A stored value: the JSON of a credential, or the key to which a TID index entry points. */
  datatype Value = Record(credential: Credential) | Reference(key: string)

  type Table = map<string, Value>

  datatype Error = BadHex(field: string) | NotFound | IndexedMissing | Undecodable
  datatype Result<+T> = Ok(value: T) | Err(error: Error)

  predicate HexDigit(c: char) {
    '0' <= c <= '9' || 'a' <= c <= 'f' || 'A' <= c <= 'F'
  }

  /** `validateHex` */
  predicate ValidHex(value: string, bytes: nat) {
    |value| == 2 * bytes && forall c :: c in value ==> HexDigit(c)
  }

  /** `strconv.Itoa` on natural numbers. */
  function Itoa(n: nat): (s: string)
    ensures |s| > 0 && forall c :: c in s ==> '0' <= c <= '9'
  {
    var digit := ['0' + (n % 10) as char];
    if n < 10 then digit else Itoa(n / 10) + digit
  }

  function Atoi(s: string): nat
    requires forall c :: c in s ==> '0' <= c <= '9'
  {
    if s == [] then 0
    else
      var init, last := s[..|s| - 1], s[|s| - 1];
      assert last in s && forall c :: c in init ==> c in s;
      10 * Atoi(init) + (last - '0') as nat
  }

  lemma {:induction false} AtoiOfItoa(n: nat)
    ensures Atoi(Itoa(n)) == n
  {
    var digit := ['0' + (n % 10) as char];
    if n < 10 {
      assert Itoa(n)[..0] == [];
    } else {
      AtoiOfItoa(n / 10);
      assert (Itoa(n / 10) + digit)[..|Itoa(n / 10)|] == Itoa(n / 10);
    }
  }

  function CredentialKey(identityHash: string, slot: u16): string {
    "cred:" + identityHash + ":" + Itoa(slot)
  }

  function TidKey(tid: string): string {
    "tid:" + tid
  }

  function KeyOf(c: Credential): string {
    CredentialKey(c.identityHash, c.slot)
  }

  /** Keys of validated credentials are distinct for distinct identity and slot, and never index keys. */
  lemma {:induction false} KeysAreDistinct(a: string, slotA: u16, b: string, slotB: u16, tid: string)
    requires |a| == |b| == 64
    ensures CredentialKey(a, slotA) == CredentialKey(b, slotB) ==> a == b && slotA == slotB
    ensures CredentialKey(a, slotA) != TidKey(tid)
  {
    hide Itoa, Atoi;
    var x, y := CredentialKey(a, slotA), CredentialKey(b, slotB);
    assert x[5..69] == a && y[5..69] == b && x[70..] == Itoa(slotA) && y[70..] == Itoa(slotB);
    AtoiOfItoa(slotA);
    AtoiOfItoa(slotB);
    assert x[0] == 'c' && TidKey(tid)[0] == 't';
  }

  lemma TidKeysAreDistinct(tid: string, tid': string)
    requires TidKey(tid) == TidKey(tid')
    ensures tid == tid'
  {
    assert TidKey(tid)[4..] == tid && TidKey(tid')[4..] == tid';
  }

  // --- The transactions -----------------------------------------------------------------

  /** The first of the five hex checks that fails. */
  function CheckCredential(c: Credential): Result<()> {
    if !ValidHex(c.identityHash, 32) then Err(BadHex("identityHash"))
    else if !ValidHex(c.tid, 32) then Err(BadHex("tid"))
    else if !ValidHex(c.publicKey, 800) then Err(BadHex("publicKey"))
    else if !ValidHex(c.w, 32) then Err(BadHex("w"))
    else if !ValidHex(c.verifyHash, 32) then Err(BadHex("verifyHash"))
    else Ok(())
  }

  function Put(t: Table, c: Credential): Result<Table> {
    if CheckCredential(c).Err? then Err(CheckCredential(c).error)
    else
      var key := KeyOf(c);
      if key !in t then Ok(t[key := Record(c)][TidKey(c.tid) := Reference(key)])
      else if t[key].Reference? then Err(Undecodable)
      else
        var previous := t[key].credential;
        if previous == c then Ok(t)
        else
          var cleaned := if previous.tid != c.tid then t - {TidKey(previous.tid)} else t;
          Ok(cleaned[key := Record(c)][TidKey(c.tid) := Reference(key)])
  }

  function QueryByIdentitySlot(t: Table, identityHash: string, slot: u16): Result<Credential> {
    if !ValidHex(identityHash, 32) then Err(BadHex("identityHash"))
    else
      var key := CredentialKey(identityHash, slot);
      if key !in t then Err(NotFound)
      else if t[key].Reference? then Err(Undecodable)
      else Ok(t[key].credential)
  }

  function QueryByTemporaryIdentity(t: Table, tid: string): Result<Credential> {
    if !ValidHex(tid, 32) then Err(BadHex("tid"))
    else if TidKey(tid) !in t then Err(NotFound)
    else if t[TidKey(tid)].Record? then Err(Undecodable)
    else
      var key := t[TidKey(tid)].key;
      if key !in t then Err(IndexedMissing)
      else if t[key].Reference? then Err(Undecodable)
      else Ok(t[key].credential)
  }

  function Delete(t: Table, identityHash: string, slot: u16): Result<Table> {
    match QueryByIdentitySlot(t, identityHash, slot)
    case Err(e) => Err(e)
    case Ok(c) => Ok(t - {CredentialKey(identityHash, slot), TidKey(c.tid)})
  }

  /** The contract over its world state; a transaction that returns an error writes nothing. */
  class SmartContract {
    var state: Table

    constructor ()
      ensures state == map[]
    {
      state := map[];
    }

    method PutCredential(c: Credential) returns (r: Result<()>)
      modifies this
      ensures Put(old(state), c).Ok? ==> r == Ok(()) && state == Put(old(state), c).value
      ensures Put(old(state), c).Err? ==> r == Err(Put(old(state), c).error) && state == old(state)
    {
      var check := CheckCredential(c);
      if check.Err? {
        return check;
      }
      var key := KeyOf(c);
      if key in state {
        if state[key].Reference? {
          return Err(Undecodable);
        }
        var previous := state[key].credential;
        if previous == c {
          return Ok(());
        }
        if previous.tid != c.tid {
          state := state - {TidKey(previous.tid)};
        }
      }
      state := state[key := Record(c)];
      state := state[TidKey(c.tid) := Reference(key)];
      return Ok(());
    }

    method DeleteCredential(identityHash: string, slot: u16) returns (r: Result<()>)
      modifies this
      ensures Delete(old(state), identityHash, slot).Ok? ==>
        r == Ok(()) && state == Delete(old(state), identityHash, slot).value
      ensures Delete(old(state), identityHash, slot).Err? ==>
        r == Err(Delete(old(state), identityHash, slot).error) && state == old(state)
    {
      var found := QueryByIdentitySlot(state, identityHash, slot);
      if found.Err? {
        return Err(found.error);
      }
      state := state - {CredentialKey(identityHash, slot)};
      state := state - {TidKey(found.value.tid)};
      return Ok(());
    }
  }

  // --- Soundness of the index ----------------------------------------------------------------

  /** A record sits at its own key; an index entry leads to a record that carries the TID it indexes. */
  predicate EntryOk(t: Table, key: string)
    requires key in t
  {
    match t[key]
    case Record(c) => key == KeyOf(c) && CheckCredential(c).Ok?
    case Reference(target) =>
      && target in t && t[target].Record? && key == TidKey(t[target].credential.tid)
  }

  predicate Sound(t: Table) {
    forall key :: key in t ==> EntryOk(t, key)
  }

  /** Every record is indexed under its TID. */
  predicate Complete(t: Table) {
    forall key :: key in t && t[key].Record? ==> Indexed(t, key)
  }

  predicate Indexed(t: Table, key: string)
    requires key in t && t[key].Record?
  {
    var tidKey := TidKey(t[key].credential.tid);
    tidKey in t && t[tidKey] == Reference(key)
  }

  lemma RecordKeysAreNotTidKeys(c: Credential, tid: string)
    requires CheckCredential(c).Ok?
    ensures KeyOf(c) != TidKey(tid)
  {
    KeysAreDistinct(c.identityHash, c.slot, c.identityHash, c.slot, tid);
  }

  lemma PutKeepsSound(t: Table, c: Credential)
    requires Sound(t) && Put(t, c).Ok?
    ensures Sound(Put(t, c).value)
  {
    hide KeyOf, TidKey, CheckCredential;
    var key, t' := KeyOf(c), Put(t, c).value;
    RecordKeysAreNotTidKeys(c, c.tid);
    if key in t {
      RecordKeysAreNotTidKeys(c, t[key].credential.tid);
    }
    forall k | k in t' ensures EntryOk(t', k) {
      if k in t && t'[k] == t[k] && t[k].Reference? && t[k].key == key && t' != t {
        assert k == TidKey(t[key].credential.tid);
      } else if k in t && t'[k] == t[k] && t[k].Reference? {
        assert EntryOk(t, k) && EntryOk(t, t[k].key);
        if key in t {
          RecordKeysAreNotTidKeys(t[t[k].key].credential, t[key].credential.tid);
        }
        RecordKeysAreNotTidKeys(t[t[k].key].credential, c.tid);
      }
    }
  }

  lemma DeleteKeepsSound(t: Table, identityHash: string, slot: u16)
    requires Sound(t) && Delete(t, identityHash, slot).Ok?
    ensures Sound(Delete(t, identityHash, slot).value)
  {
    hide KeyOf, TidKey, CheckCredential, CredentialKey;
    var key := CredentialKey(identityHash, slot);
    var t' := Delete(t, identityHash, slot).value;
    var tid := t[key].credential.tid;
    forall k | k in t' ensures EntryOk(t', k) {
      assert EntryOk(t, k);
      if t[k].Reference? {
        var target := t[k].key;
        assert target != key;
        assert EntryOk(t, target);
        RecordKeysAreNotTidKeys(t[target].credential, tid);
      }
    }
  }

  /** In a sound table a TID query finds a live record carrying that very TID, or nothing at all. */
  lemma {:induction false} TidQueryIsTruthful(t: Table, tid: string)
    requires Sound(t) && ValidHex(tid, 32)
    ensures var r := QueryByTemporaryIdentity(t, tid);
      && (r.Ok? ==> r.value.tid == tid && KeyOf(r.value) in t && t[KeyOf(r.value)] == Record(r.value))
      && (r.Err? ==> r == Err(NotFound))
      && (r == Err(NotFound) <==> TidKey(tid) !in t)
  {
    hide KeyOf, CheckCredential;
    if TidKey(tid) in t {
      assert EntryOk(t, TidKey(tid));
      match t[TidKey(tid)]
      case Record(c) =>
        RecordKeysAreNotTidKeys(c, tid);
        assert false;
      case Reference(target) =>
        assert EntryOk(t, target);
        TidKeysAreDistinct(tid, t[target].credential.tid);
    }
  }

  // --- Completeness of the index ---------------------------------------------------------------

  /** Some other record holds this TID. */
  ghost predicate HeldElsewhere(t: Table, tid: string, key: string) {
    exists k :: k in t && k != key && t[k].Record? && t[k].credential.tid == tid
  }

  /** A put keeps the index the exact inverse of the table exactly when no other key holds the TID. */
  lemma {:induction false} PutKeepsCompleteExactlyWhenTidIsFree(t: Table, c: Credential)
    requires Sound(t) && Complete(t) && Put(t, c).Ok?
    ensures Complete(Put(t, c).value) <==> !HeldElsewhere(t, c.tid, KeyOf(c))
  {
    hide KeyOf, TidKey, CheckCredential;
    var key, t' := KeyOf(c), Put(t, c).value;
    RecordKeysAreNotTidKeys(c, c.tid);
    if key in t {
      RecordKeysAreNotTidKeys(c, t[key].credential.tid);
    }
    forall k | k in t && t[k].Record? ensures k != TidKey(c.tid)
      && (key in t && t[key].Record? ==> k != TidKey(t[key].credential.tid)) {
      assert EntryOk(t, k);
      RecordKeysAreNotTidKeys(t[k].credential, c.tid);
      if key in t && t[key].Record? {
        RecordKeysAreNotTidKeys(t[k].credential, t[key].credential.tid);
      }
    }
    if HeldElsewhere(t, c.tid, key) {
      var k :| k in t && k != key && t[k].Record? && t[k].credential.tid == c.tid;
      assert Indexed(t, k);
      assert k in t' && !Indexed(t', k);
    } else if t' != t {
      forall k | k in t' && t'[k].Record? ensures Indexed(t', k) {
        if k != key {
          assert Indexed(t, k);
          StillIndexed(t, c, k);
        }
      }
    }
  }

  lemma StillIndexed(t: Table, c: Credential, k: string)
    requires Sound(t) && Complete(t) && Put(t, c).Ok? && Put(t, c).value != t
    requires k in t && t[k].Record? && k != KeyOf(c) && !HeldElsewhere(t, c.tid, KeyOf(c))
    requires TidKey(t[k].credential.tid) in t && t[TidKey(t[k].credential.tid)] == Reference(k)
    ensures var t' := Put(t, c).value;
      var tidKey := TidKey(t[k].credential.tid);
      tidKey in t' && t'[tidKey] == Reference(k)
  {
    hide KeyOf, TidKey, CheckCredential;
    var key, tid := KeyOf(c), t[k].credential.tid;
    RecordKeysAreNotTidKeys(c, tid);
    if TidKey(tid) == TidKey(c.tid) {
      TidKeysAreDistinct(tid, c.tid);
      assert false;
    }
    if key in t {
      assert Indexed(t, key);
    }
  }

  lemma DeleteKeepsComplete(t: Table, identityHash: string, slot: u16)
    requires Sound(t) && Complete(t) && Delete(t, identityHash, slot).Ok?
    ensures Complete(Delete(t, identityHash, slot).value)
  {
  }

  // --- Runs -------------------------------------------------------------------------------------

  datatype Transaction = PutTx(credential: Credential) | DeleteTx(identityHash: string, slot: u16)

  function Commit(t: Table, tx: Transaction): Table {
    var r := if tx.PutTx? then Put(t, tx.credential) else Delete(t, tx.identityHash, tx.slot);
    if r.Ok? then r.value else t
  }

  function CommitAll(txs: seq<Transaction>): Table {
    if txs == [] then map[] else Commit(CommitAll(txs[..|txs| - 1]), txs[|txs| - 1])
  }

  /** No put reuses a TID that another key holds at that moment. */
  ghost predicate NoSharedTids(txs: seq<Transaction>) {
    forall i :: 0 <= i < |txs| && txs[i].PutTx? ==>
      !HeldElsewhere(CommitAll(txs[..i]), txs[i].credential.tid, KeyOf(txs[i].credential))
  }

  /** Every reachable table is sound; without shared TIDs its index is the exact inverse of its records. */
  lemma {:induction false} ReachableTables(txs: seq<Transaction>)
    ensures Sound(CommitAll(txs))
    ensures NoSharedTids(txs) ==> Complete(CommitAll(txs))
  {
    hide Sound, Complete, Put, Delete, HeldElsewhere, KeyOf;
    if txs == [] {
      EmptyTable();
    } else {
      var before, tx := txs[..|txs| - 1], txs[|txs| - 1];
      ReachableTables(before);
      assert NoSharedTids(txs) ==> NoSharedTids(before) by {
        assert forall i :: 0 <= i < |before| ==> before[..i] == txs[..i] && before[i] == txs[i];
      }
      var t := CommitAll(before);
      if tx.PutTx? && Put(t, tx.credential).Ok? {
        PutKeepsSound(t, tx.credential);
        if NoSharedTids(txs) {
          PutKeepsCompleteExactlyWhenTidIsFree(t, tx.credential);
        }
      } else if tx.DeleteTx? && Delete(t, tx.identityHash, tx.slot).Ok? {
        DeleteKeepsSound(t, tx.identityHash, tx.slot);
        if NoSharedTids(txs) {
          DeleteKeepsComplete(t, tx.identityHash, tx.slot);
        }
      }
    }
  }

  lemma EmptyTable()
    ensures Sound(map[]) && Complete(map[])
  {
  }

  /** A retransmitted put leaves the same table as a single one. */
  lemma RepeatedPutChangesNothing(t: Table, c: Credential)
    requires Sound(t) && Put(t, c).Ok?
    ensures Put(Put(t, c).value, c) == Ok(Put(t, c).value)
  {
  }

  /** Two credentials sharing a TID: deleting the second hides the first, which is still in the table. */
  lemma {:induction false} SharedTidHidesCredential(a: Credential, b: Credential)
    requires CheckCredential(a).Ok? && CheckCredential(b).Ok? && KeyOf(a) != KeyOf(b) && a.tid == b.tid
    ensures var t := CommitAll([PutTx(a), PutTx(b), DeleteTx(b.identityHash, b.slot)]);
      && QueryByIdentitySlot(t, a.identityHash, a.slot) == Ok(a)
      && QueryByTemporaryIdentity(t, a.tid) == Err(NotFound)
  {
    hide TidKey, CredentialKey;
    RecordKeysAreNotTidKeys(a, a.tid);
    RecordKeysAreNotTidKeys(b, a.tid);
    var txs := [PutTx(a), PutTx(b), DeleteTx(b.identityHash, b.slot)];
    assert txs[..2] == [PutTx(a), PutTx(b)] && [PutTx(a), PutTx(b)][..1] == [PutTx(a)] && [PutTx(a)][..0] == [];
    assert CommitAll([PutTx(a)]) == map[KeyOf(a) := Record(a)][TidKey(a.tid) := Reference(KeyOf(a))];
    assert CommitAll([PutTx(a), PutTx(b)])
        == CommitAll([PutTx(a)])[KeyOf(b) := Record(b)][TidKey(b.tid) := Reference(KeyOf(b))];
  }

  // --- What a transaction leaves of everything else ----------------------------------------------

  /** Two tables answer the query by this identity and slot alike. */
  predicate SameRecord(t: Table, t': Table, identityHash: string, slot: u16) {
    QueryByIdentitySlot(t', identityHash, slot) == QueryByIdentitySlot(t, identityHash, slot)
  }

  predicate SameTid(t: Table, t': Table, tid: string) {
    QueryByTemporaryIdentity(t', tid) == QueryByTemporaryIdentity(t, tid)
  }

  /** In a sound table exactly the valid credentials are stored. */
  lemma {:induction false} PutSucceedsExactlyWhenValid(t: Table, c: Credential)
    requires Sound(t)
    ensures Put(t, c).Ok? <==> CheckCredential(c).Ok?
    ensures CheckCredential(c).Ok?
       <==> && ValidHex(c.identityHash, 32) && ValidHex(c.tid, 32) && ValidHex(c.publicKey, 800)
            && ValidHex(c.w, 32) && ValidHex(c.verifyHash, 32)
  {
    hide KeyOf, TidKey, ValidHex;
    if CheckCredential(c).Ok? && KeyOf(c) in t {
      assert EntryOk(t, KeyOf(c));
      if t[KeyOf(c)].Reference? {
        RecordKeysAreNotTidKeys(c, t[t[KeyOf(c)].key].credential.tid);
        assert false;
      }
    }
  }

  /** A put answers for its own identity and slot, and for no other. */
  lemma {:induction false} PutStoresOneRecord(t: Table, c: Credential, identityHash: string, slot: u16)
    requires Sound(t) && Put(t, c).Ok?
    ensures var t' := Put(t, c).value;
      if identityHash == c.identityHash && slot == c.slot then QueryByIdentitySlot(t', identityHash, slot) == Ok(c)
      else SameRecord(t, t', identityHash, slot)
  {
    hide TidKey, CredentialKey;
    if ValidHex(identityHash, 32) {
      KeysAreDistinct(identityHash, slot, c.identityHash, c.slot, c.tid);
      RecordKeysAreNotTidKeys(c, c.tid);
      if KeyOf(c) in t {
        KeysAreDistinct(identityHash, slot, c.identityHash, c.slot, t[KeyOf(c)].credential.tid);
      }
    }
  }

  /** The TID that a put withdraws: the one under which another credential of the same identity and slot was stored. */
  predicate Withdraws(t: Table, c: Credential, tid: string) {
    var previous := QueryByIdentitySlot(t, c.identityHash, c.slot);
    previous.Ok? && previous.value.tid == tid != c.tid
  }

  /** In a sound table an index entry leads to the record of its TID, away from all index entries. */
  lemma TidEntry(t: Table, tid: string, other: string)
    requires Sound(t) && TidKey(tid) in t
    ensures t[TidKey(tid)].Reference?
    ensures var target := t[TidKey(tid)].key;
      && target in t && t[target].Record? && t[target].credential.tid == tid
      && target == KeyOf(t[target].credential) && target != TidKey(other)
  {
    hide TidKey, KeyOf, CheckCredential;
    assert EntryOk(t, TidKey(tid));
    match t[TidKey(tid)]
    case Record(c) =>
      RecordKeysAreNotTidKeys(c, tid);
      assert false;
    case Reference(target) =>
      assert EntryOk(t, target);
      TidKeysAreDistinct(tid, t[target].credential.tid);
      RecordKeysAreNotTidKeys(t[target].credential, other);
  }

  /** A put that stores something leads its TID to it, withdraws the TID it replaces, and touches no other TID. */
  lemma {:induction false} PutIndexesOneTid(t: Table, c: Credential, tid: string)
    requires Sound(t) && Put(t, c).Ok? && Put(t, c).value != t && ValidHex(tid, 32)
    ensures var t' := Put(t, c).value;
      if tid == c.tid then QueryByTemporaryIdentity(t', tid) == Ok(c)
      else if Withdraws(t, c, tid) then QueryByTemporaryIdentity(t', tid) == Err(NotFound)
      else SameTid(t, t', tid)
  {
    hide TidKey, KeyOf, ValidHex;
    RecordKeysAreNotTidKeys(c, c.tid);
    RecordKeysAreNotTidKeys(c, tid);
    TidKeysDiffer(tid, c.tid);
    assert CredentialKey(c.identityHash, c.slot) == KeyOf(c) by { KeyIs(c); }
    if TidKey(tid) in t {
      TidEntry(t, tid, c.tid);
    }
    if KeyOf(c) in t {
      TidKeysDiffer(tid, t[KeyOf(c)].credential.tid);
      if TidKey(tid) in t {
        TidEntry(t, tid, t[KeyOf(c)].credential.tid);
      }
    }
  }

  lemma TidKeysDiffer(tid: string, tid': string)
    ensures TidKey(tid) == TidKey(tid') <==> tid == tid'
  {
    if TidKey(tid) == TidKey(tid') {
      TidKeysAreDistinct(tid, tid');
    }
  }

  lemma KeyIs(c: Credential)
    ensures CredentialKey(c.identityHash, c.slot) == KeyOf(c)
  {
  }

  /** A deletion ends both answers for the record it finds, and changes no other answer. */
  lemma {:induction false} DeleteRemovesOneRecord(t: Table, identityHash: string, slot: u16, other: string,
      otherSlot: u16)
    requires Sound(t) && Delete(t, identityHash, slot).Ok?
    ensures var t' := Delete(t, identityHash, slot).value;
      if other == identityHash && otherSlot == slot then QueryByIdentitySlot(t', other, otherSlot) == Err(NotFound)
      else SameRecord(t, t', other, otherSlot)
  {
    hide TidKey, CredentialKey, CheckCredential;
    if ValidHex(other, 32) {
      var tid := QueryByIdentitySlot(t, identityHash, slot).value.tid;
      KeysAreDistinct(other, otherSlot, identityHash, slot, tid);
    }
  }

  lemma {:induction false} DeleteRemovesOneTid(t: Table, identityHash: string, slot: u16, tid: string)
    requires Sound(t) && Delete(t, identityHash, slot).Ok? && ValidHex(tid, 32)
    ensures var t' := Delete(t, identityHash, slot).value;
      if tid == QueryByIdentitySlot(t, identityHash, slot).value.tid
      then QueryByTemporaryIdentity(t', tid) == Err(NotFound)
      else SameTid(t, t', tid)
  {
    hide TidKey, CredentialKey, ValidHex, CheckCredential;
    var key := CredentialKey(identityHash, slot);
    var gone := t[key].credential.tid;
    assert EntryOk(t, key);
    RecordKeysAreNotTidKeys(t[key].credential, tid);
    TidKeysDiffer(tid, gone);
    if TidKey(tid) in t {
      TidEntry(t, tid, gone);
    }
  }

  // --- Queries follow the history -------------------------------------------------------------------

  /** The last valid credential put under this identity and slot, unless it has been deleted since. */
  function LastPut(txs: seq<Transaction>, identityHash: string, slot: u16): Result<Credential> {
    if txs == [] then Err(NotFound)
    else
      match txs[|txs| - 1]
      case PutTx(c) =>
        if c.identityHash == identityHash && c.slot == slot && CheckCredential(c).Ok? then Ok(c)
        else LastPut(txs[..|txs| - 1], identityHash, slot)
      case DeleteTx(deleted, deletedSlot) =>
        if deleted == identityHash && deletedSlot == slot then Err(NotFound)
        else LastPut(txs[..|txs| - 1], identityHash, slot)
  }

  /** Over all runs, the query by identity and slot answers with the last put that was not deleted. */
  lemma {:induction false} QueriesFollowHistory(txs: seq<Transaction>, identityHash: string, slot: u16)
    requires ValidHex(identityHash, 32)
    ensures QueryByIdentitySlot(CommitAll(txs), identityHash, slot) == LastPut(txs, identityHash, slot)
  {
    hide Put, Delete, CheckCredential, CredentialKey, ValidHex;
    if txs != [] {
      var before, tx := txs[..|txs| - 1], txs[|txs| - 1];
      var t := CommitAll(before);
      QueriesFollowHistory(before, identityHash, slot);
      ReachableTables(before);
      match tx
      case PutTx(c) =>
        PutSucceedsExactlyWhenValid(t, c);
        if Put(t, c).Ok? {
          PutStoresOneRecord(t, c, identityHash, slot);
        }
      case DeleteTx(deleted, deletedSlot) =>
        DeleteSucceedsExactlyWhenFound(t, deleted, deletedSlot);
        if Delete(t, deleted, deletedSlot).Ok? {
          DeleteRemovesOneRecord(t, deleted, deletedSlot, identityHash, slot);
        }
    }
  }

  /** Deleting fails exactly as the query does. */
  lemma DeleteSucceedsExactlyWhenFound(t: Table, identityHash: string, slot: u16)
    requires Sound(t)
    ensures Delete(t, identityHash, slot).Ok? <==> QueryByIdentitySlot(t, identityHash, slot).Ok?
    ensures ValidHex(identityHash, 32) && Delete(t, identityHash, slot).Err? ==>
      QueryByIdentitySlot(t, identityHash, slot) == Err(NotFound)
  {
    hide CredentialKey;
    var key := CredentialKey(identityHash, slot);
    if ValidHex(identityHash, 32) && key in t && t[key].Reference? {
      assert EntryOk(t, key);
      KeysAreDistinct(identityHash, slot, identityHash, slot, t[t[key].key].credential.tid);
      assert false;
    }
  }
}

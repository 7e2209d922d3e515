/** Lookup in a loaded list, and what `store` and `remove` make of it before the file is replaced. */
module TrustedPeerMutation {
  import opened Results
  import opened Bytes
  import opened Ordering
  import opened TrustedPeerCodec
  import opened TrustedPeerLaws
  import Utf8

  // ---------- lookup ----------

  /** Bisection of `rs[lo..hi]` for an identity. */
  function BinarySearch(rs: seq<Record>, id: Identity, lo: nat, hi: nat): Option<nat>
    requires lo <= hi <= |rs|
    decreases hi - lo
  {
    if lo == hi then None
    else
      var mid := lo + (hi - lo) / 2;
      if rs[mid].identity == id then Some(mid)
      else if Below(RecordKey(rs[mid]), IdentityKey(id)) then BinarySearch(rs, id, mid + 1, hi)
      else BinarySearch(rs, id, lo, mid)
  }

  function Get(rs: seq<Record>, id: Identity): Option<Record> {
    match BinarySearch(rs, id, 0, |rs|)
    case Some(i) => if i < |rs| then Some(rs[i]) else None
    case None => None
  }

  /** The first record with the identity, found by looking at every record. */
  function LinearSearch(rs: seq<Record>, id: Identity): Option<Record> {
    if rs == [] then None
    else if rs[0].identity == id then Some(rs[0])
    else LinearSearch(rs[1..], id)
  }

  lemma {:induction false} BinarySearchExact(rs: seq<Record>, id: Identity, lo: nat, hi: nat)
    requires lo <= hi <= |rs| && StrictlySorted(rs, RecordKey)
    ensures var found := BinarySearch(rs, id, lo, hi);
            match found
            case Some(i) => lo <= i < hi && rs[i].identity == id
            case None => forall i | lo <= i < hi :: rs[i].identity != id
    decreases hi - lo
  {
    if lo < hi {
      var mid := lo + (hi - lo) / 2;
      if Below(RecordKey(rs[mid]), IdentityKey(id)) {
        BinarySearchExact(rs, id, mid + 1, hi);
        forall i | lo <= i <= mid
          ensures rs[i].identity != id
        {
          if i < mid {
            BelowAsymmetric(RecordKey(rs[i]), RecordKey(rs[mid]));
          }
          BelowAsymmetric(RecordKey(rs[mid]), IdentityKey(id));
        }
      } else {
        BinarySearchExact(rs, id, lo, mid);
        forall i | mid < i < hi
          ensures rs[i].identity != id
        {
          assert Below(RecordKey(rs[mid]), RecordKey(rs[i]));
        }
      }
    }
  }

  lemma {:induction false} LinearSearchExact(rs: seq<Record>, id: Identity)
    ensures match LinearSearch(rs, id)
            case Some(r) => r in rs && r.identity == id
            case None => forall r | r in rs :: r.identity != id
  {
    if rs == [] {
    } else {
      LinearSearchExact(rs[1..], id);
      assert rs == [rs[0]] + rs[1..];
    }
  }

  /** On what a load returns, bisection finds what looking at every record finds, for every identity. */
  lemma GetAgreesWithLinearSearch(rs: seq<Record>, id: Identity)
    requires StrictlySorted(rs, RecordKey)
    ensures Get(rs, id) == LinearSearch(rs, id)
  {
    BinarySearchExact(rs, id, 0, |rs|);
    LinearSearchExact(rs, id);
    StrictlySortedDistinct(rs, RecordKey);
    if LinearSearch(rs, id).Some? {
      var i :| 0 <= i < |rs| && rs[i] == LinearSearch(rs, id).value;
      assert Get(rs, id).Some?;
    }
  }

  // ---------- contents as a map ----------

  type Contents = map<Identity, Option<Utf8.Text>>

  ghost predicate UniqueIdentities(rs: seq<Record>) {
    forall a, b | a in rs && b in rs && a.identity == b.identity :: a == b
  }

  lemma SortedUnique(rs: seq<Record>)
    requires StrictlySorted(rs, RecordKey)
    ensures UniqueIdentities(rs)
  {
    StrictlySortedDistinct(rs, RecordKey);
  }

  /** Which label each identity is bound to. */
  ghost function AsMap(rs: seq<Record>): (m: Contents)
    requires UniqueIdentities(rs)
    ensures forall r | r in rs :: r.identity in m && m[r.identity] == r.labelText
    ensures forall id | id in m :: Record(id, m[id]) in rs
  {
    map r | r in rs :: r.identity := r.labelText
  }

  lemma ContentsDetermineRecords(a: seq<Record>, b: seq<Record>)
    requires StrictlySorted(a, RecordKey) && StrictlySorted(b, RecordKey)
    requires UniqueIdentities(a) && UniqueIdentities(b) && AsMap(a) == AsMap(b)
    ensures a == b
  {
    forall r: Record
      ensures r in a <==> r in b
    {
      if r in a {
        assert Record(r.identity, AsMap(b)[r.identity]) in b;
      }
      if r in b {
        assert Record(r.identity, AsMap(a)[r.identity]) in a;
      }
    }
    StrictlySortedUnique(a, b, RecordKey);
  }

  // ---------- mutations ----------

  datatype Mutation = Put(record: Record) | Delete(identity: Identity)

  predicate ValidMutation(m: Mutation) {
    match m
    case Put(record) => ValidRecord(record)
    case Delete(id) => ValidIdentity(id)
  }

  /** The label can be read back, so the mutation does not make the file unreadable. */
  predicate ReadableMutation(m: Mutation) { m.Put? ==> Short(m.record) }

  ghost function Commit(contents: Contents, m: Mutation): Contents {
    match m
    case Put(record) => contents[record.identity := record.labelText]
    case Delete(id) => contents - {id}
  }

  function Without(rs: seq<Record>, id: Identity): (r: seq<Record>)
    ensures |r| <= |rs|
    ensures forall x :: x in r <==> x in rs && x.identity != id
  {
    if rs == [] then []
    else
      assert rs == [rs[0]] + rs[1..];
      if rs[0].identity == id then Without(rs[1..], id) else [rs[0]] + Without(rs[1..], id)
  }

  /** The records that `store` and `remove` hand to the writer, in the order they build them. */
  function Plan(rs: seq<Record>, m: Mutation): seq<Record> {
    match m
    case Put(record) => Without(rs, record.identity) + [record]
    case Delete(id) => Without(rs, id)
  }

  /** The checks and the encoding the writer performs before it creates a file. */
  function WriteBytes(records: seq<Record>): Result<seq<Byte>, StoreError> {
    if |records| > MAX_TRUSTED_PEERS then Err(CapacityExceeded(|records|))
    else
      var bytes := Encode(SortBy(records, RecordKey));
      if |bytes| > MAX_TRUSTED_PEERS_STORE_BYTES then Err(StoreTooLarge(|bytes|)) else Ok(bytes)
  }

  lemma {:induction false} WithoutDistinct(rs: seq<Record>, id: Identity)
    requires DistinctKeys(rs, RecordKey)
    ensures DistinctKeys(Without(rs, id), RecordKey)
  {
    if rs == [] {
    } else {
      assert DistinctKeys(rs[1..], RecordKey);
      WithoutDistinct(rs[1..], id);
      var rest := Without(rs[1..], id);
      forall j | 0 <= j < |rest|
        ensures RecordKey(rs[0]) != RecordKey(rest[j])
      {
        assert rest[j] in rest;
        var i :| 0 <= i < |rs[1..]| && rs[1..][i] == rest[j];
        assert rest[j] == rs[i + 1];
      }
      assert DistinctKeys([rs[0]] + rest, RecordKey);
    }
  }

  lemma PlanDistinct(rs: seq<Record>, m: Mutation)
    requires StrictlySorted(rs, RecordKey)
    ensures DistinctKeys(Plan(rs, m), RecordKey)
  {
    StrictlySortedDistinct(rs, RecordKey);
    if m.Delete? {
      WithoutDistinct(rs, m.identity);
    } else {
      var id := m.record.identity;
      WithoutDistinct(rs, id);
      var kept := Without(rs, id);
      forall i | 0 <= i < |kept|
        ensures RecordKey(kept[i]) != IdentityKey(id)
      {
        assert kept[i] in kept;
        if RecordKey(kept[i]) == IdentityKey(id) {
          IdentityKeyInjective(kept[i].identity, id);
        }
      }
      assert DistinctKeys(kept + [m.record], RecordKey);
    }
  }

  lemma PlanValid(rs: seq<Record>, m: Mutation)
    requires Canonical(rs) && ValidMutation(m)
    ensures StrictlySorted(SortBy(Plan(rs, m), RecordKey), RecordKey)
    ensures forall r :: r in Plan(rs, m) <==> r in SortBy(Plan(rs, m), RecordKey)
    ensures forall r | r in SortBy(Plan(rs, m), RecordKey) :: ValidRecord(r)
    ensures UniqueIdentities(rs) && UniqueIdentities(SortBy(Plan(rs, m), RecordKey))
  {
    PlanDistinct(rs, m);
    SortByStrict(Plan(rs, m), RecordKey);
    SortedUnique(rs);
    SortedUnique(SortBy(Plan(rs, m), RecordKey));
    SameElements(Plan(rs, m), SortBy(Plan(rs, m), RecordKey));
    forall r | r in Plan(rs, m)
      ensures ValidRecord(r)
    {
      if !(m.Put? && r == m.record) {
        assert r in rs;
      }
    }
  }

  /** What the writer encodes holds the old contents with just this mutation made. */
  lemma PlanCommits(rs: seq<Record>, m: Mutation)
    requires Canonical(rs) && ValidMutation(m)
    ensures StrictlySorted(SortBy(Plan(rs, m), RecordKey), RecordKey)
    ensures forall r | r in SortBy(Plan(rs, m), RecordKey) :: ValidRecord(r)
    ensures UniqueIdentities(rs) && UniqueIdentities(SortBy(Plan(rs, m), RecordKey))
    ensures AsMap(SortBy(Plan(rs, m), RecordKey)) == Commit(AsMap(rs), m)
  {
    PlanValid(rs, m);
    PlanContents(rs, m, SortBy(Plan(rs, m), RecordKey));
  }

  lemma PlanContents(rs: seq<Record>, m: Mutation, out: seq<Record>)
    requires UniqueIdentities(rs) && UniqueIdentities(out)
    requires forall r :: r in Plan(rs, m) <==> r in out
    ensures AsMap(out) == Commit(AsMap(rs), m)
  {
    var before, after := AsMap(out), Commit(AsMap(rs), m);
    forall id
      ensures id in before <==> id in after
      ensures id in before ==> before[id] == after[id]
    {
      PlanMember(rs, m, out, id);
    }
    assert before.Keys == after.Keys;
  }

  lemma PlanMember(rs: seq<Record>, m: Mutation, out: seq<Record>, id: Identity)
    requires UniqueIdentities(rs) && UniqueIdentities(out)
    requires forall r :: r in Plan(rs, m) <==> r in out
    ensures id in AsMap(out) <==> id in Commit(AsMap(rs), m)
    ensures id in AsMap(out) ==> AsMap(out)[id] == Commit(AsMap(rs), m)[id]
  {
    if m.Put? && id == m.record.identity {
      assert m.record in Plan(rs, m);
      assert m.record in out;
    } else {
      if id in AsMap(rs) && !(m.Delete? && id == m.identity) {
        assert Record(id, AsMap(rs)[id]) in Plan(rs, m);
        assert Record(id, AsMap(rs)[id]) in out;
      }
      if id in AsMap(out) {
        assert Record(id, AsMap(out)[id]) in out;
        assert Record(id, AsMap(out)[id]) in Plan(rs, m);
        assert Record(id, AsMap(out)[id]) in rs;
      }
    }
  }

  lemma PlanSize(rs: seq<Record>, m: Mutation, out: seq<Record>)
    requires AllShort(rs)
    requires StrictlySorted(out, RecordKey) && forall r | r in out :: ValidRecord(r)
    requires forall r :: r in Plan(rs, m) <==> r in out
    ensures |EncodeRecords(out)| <= 392 * |out| + 256
    ensures AllShort(out) <==> ReadableMutation(m)
  {
    forall r | r in out
      ensures Short(r) || (m.Put? && r == m.record)
    {
      assert r in Plan(rs, m);
    }
    if m.Put? {
      assert m.record in Plan(rs, m);
      assert m.record in out;
      var i :| 0 <= i < |out| && out[i] == m.record;
      StrictlySortedDistinct(out, RecordKey);
      OnceIn(out, i);
      EncodedSize(out, m.record);
    } else {
      ShortSize(out);
    }
  }

  lemma {:induction false} WithoutUnchanged(rs: seq<Record>, id: Identity)
    ensures |Without(rs, id)| == |rs| <==> forall r | r in rs :: r.identity != id
    ensures |Without(rs, id)| == |rs| ==> Without(rs, id) == rs
  {
    if rs == [] {
    } else {
      assert rs == [rs[0]] + rs[1..];
      WithoutUnchanged(rs[1..], id);
    }
  }

  ghost function IdentitiesOf(rs: seq<Record>): set<Identity> { set r | r in rs :: r.identity }

  lemma {:induction false} IdentityCount(rs: seq<Record>)
    requires forall i, j | 0 <= i < j < |rs| :: rs[i].identity != rs[j].identity
    ensures |IdentitiesOf(rs)| == |rs|
  {
    if rs == [] {
    } else {
      var n := |rs| - 1;
      IdentityCount(rs[..n]);
      assert rs == rs[..n] + [rs[n]];
      assert IdentitiesOf(rs) == IdentitiesOf(rs[..n]) + {rs[n].identity};
    }
  }

  lemma AsMapSize(rs: seq<Record>)
    requires StrictlySorted(rs, RecordKey) && UniqueIdentities(rs)
    ensures |AsMap(rs)| == |rs|
  {
    StrictlySortedDistinct(rs, RecordKey);
    assert forall i, j | 0 <= i < j < |rs| :: RecordKey(rs[i]) != RecordKey(rs[j]);
    IdentityCount(rs);
    assert AsMap(rs).Keys == IdentitiesOf(rs);
  }

  /** The store is full and does not hold the identity yet. */
  ghost predicate FullWithout(contents: Contents, id: Identity) {
    |contents| == MAX_TRUSTED_PEERS && id !in contents
  }

  lemma PlanOverflows(rs: seq<Record>, m: Mutation)
    requires StrictlySorted(rs, RecordKey) && UniqueIdentities(rs) && |rs| <= MAX_TRUSTED_PEERS
    ensures |Plan(rs, m)| <= MAX_TRUSTED_PEERS + 1
    ensures |Plan(rs, m)| > MAX_TRUSTED_PEERS <==> m.Put? && FullWithout(AsMap(rs), m.record.identity)
  {
    AsMapSize(rs);
    if m.Put? {
      WithoutUnchanged(rs, m.record.identity);
      AbsentIdentity(rs, m.record.identity);
    }
  }

  /** The writer refuses exactly a new identity for a full store, and says so. */
  lemma RefusedExactly(rs: seq<Record>, m: Mutation)
    requires Canonical(rs) && AllShort(rs) && UniqueIdentities(rs) && ValidMutation(m)
    ensures WriteBytes(Plan(rs, m)).Err? <==> m.Put? && FullWithout(AsMap(rs), m.record.identity)
    ensures WriteBytes(Plan(rs, m)).Err? ==> WriteBytes(Plan(rs, m)) == Err(CapacityExceeded(MAX_TRUSTED_PEERS + 1))
  {
    WriteFits(rs, m);
    PlanOverflows(rs, m);
  }

  lemma AbsentIdentity(rs: seq<Record>, id: Identity)
    requires UniqueIdentities(rs)
    ensures id !in AsMap(rs) <==> forall r | r in rs :: r.identity != id
  {
    if id in AsMap(rs) {
      assert Record(id, AsMap(rs)[id]) in rs;
    }
  }

  /**
   Whatever a load returned, the bytes handed to the file system are at most
   50464, so the writer's 64 KiB check never fires and only capacity can refuse.
   The new file can be read exactly when the new label can.
   */
  lemma WriteFits(rs: seq<Record>, m: Mutation)
    requires Canonical(rs) && AllShort(rs) && ValidMutation(m)
    ensures |Plan(rs, m)| > MAX_TRUSTED_PEERS ==> WriteBytes(Plan(rs, m)) == Err(CapacityExceeded(|Plan(rs, m)|))
    ensures |Plan(rs, m)| <= MAX_TRUSTED_PEERS ==>
              var out := SortBy(Plan(rs, m), RecordKey);
              && WriteBytes(Plan(rs, m)) == Ok(Encode(out)) && |Encode(out)| <= 50464
              && Canonical(out) && (Decode(Encode(out)).Ok? <==> ReadableMutation(m))
  {
    PlanValid(rs, m);
    var out := SortBy(Plan(rs, m), RecordKey);
    EncodedFile(out);
    PlanSize(rs, m, out);
    if |out| <= MAX_TRUSTED_PEERS {
      DecodeEncode(out);
    }
  }
}

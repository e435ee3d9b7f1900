/**
 * The credential store of src/usecase/totpstore/store.go. Entries are held by value in
 * insertion order; every mutating operation is a function from the old store to the new one.
 * Base64 (section 4 of RFC 4648), JSON and the machine key are parameters; the envelope is the
 * Crypto model.
 */
module TotpStore {
  import opened Wrappers
  import opened Bytes
  import opened Errors
  import opened TotpEntry
  import Crypto

  datatype Store = Store(entries: seq<Entry>, loaded: bool)

  /** The store after an operation that reports an error, and that error (Fail) or nil (Pass). */
  datatype Step = Step(store: Store, outcome: Outcome<Error>)

  /** New: no entries, not loaded. */
  function New(): (s: Store)
    ensures |s.entries| == 0 && !s.loaded
  {
    Store([], false)
  }

  function Count(s: Store): nat {
    |s.entries|
  }

  predicate Contains(es: seq<Entry>, id: string) {
    exists i :: 0 <= i < |es| && es[i].id == id
  }

  /** No entry before position i has the ID of the entry at i. */
  predicate IsFirst(es: seq<Entry>, i: int)
    requires 0 <= i < |es|
  {
    forall j :: 0 <= j < i ==> es[j].id != es[i].id
  }

  /** Position i holds the first entry with the given ID: the one the loops of the store stop at. */
  predicate FirstMatch(es: seq<Entry>, id: string, i: int) {
    0 <= i < |es| && es[i].id == id && IsFirst(es, i)
  }

  predicate DistinctIds(es: seq<Entry>) {
    forall i, j :: 0 <= i < j < |es| ==> es[i].id != es[j].id
  }

  /** The loop `for i, e := range entries { if e.ID == id ... }`: the first matching position. */
  function FindFirst(es: seq<Entry>, id: string): (r: Option<nat>)
    ensures r.None? <==> !Contains(es, id)
    ensures r.Some? ==> FirstMatch(es, id, r.value)
  {
    if |es| == 0 then None
    else if es[0].id == id then Some(0)
    else match FindFirst(es[1..], id)
      case None =>
        assert forall i :: 1 <= i < |es| ==> es[i] == es[1..][i - 1];
        None
      case Some(i) =>
        assert es[i + 1] == es[1..][i];
        assert forall j :: 1 <= j <= i ==> es[j] == es[1..][j - 1];
        Some(i + 1)
  }

  /** Only one position can be the first match of an ID. */
  lemma FirstMatchUnique(es: seq<Entry>, id: string, i: int, j: int)
    requires FirstMatch(es, id, i) && FirstMatch(es, id, j)
    ensures i == j
  {
    if i < j {
      assert false;
    } else if j < i {
      assert false;
    }
  }

  /** Get: the first entry with the ID, or ErrEntryNotFound. */
  function Get(s: Store, id: string): (r: Result<Entry, Error>)
    ensures r.Failure? <==> !Contains(s.entries, id)
    ensures r.Failure? ==> r.error == EntryNotFound
    ensures forall i :: FirstMatch(s.entries, id, i) ==> r == Success(s.entries[i])
  {
    match FindFirst(s.entries, id)
    case None => Failure(EntryNotFound)
    case Some(i) =>
      assert forall k :: FirstMatch(s.entries, id, k) ==> k == i by {
        forall k | FirstMatch(s.entries, id, k) {
          FirstMatchUnique(s.entries, id, i, k);
        }
      }
      Success(s.entries[i])
  }

  /** The largest Order in the store, and -1 when it is empty (the start value of Add's loop). */
  function MaxOrder(es: seq<Entry>): (m: int)
    ensures m >= -1 && InInt64(m)
    ensures forall i :: 0 <= i < |es| ==> es[i].order <= m
    ensures m == -1 || exists i :: 0 <= i < |es| && es[i].order == m
  {
    if |es| == 0 then -1
    else
      var m := MaxOrder(es[..|es| - 1]);
      assert forall i :: 0 <= i < |es| - 1 ==> es[i] == es[..|es| - 1][i];
      if es[|es| - 1].order > m then es[|es| - 1].order else m
  }

  /**
   * Add: the entry gets the Order one above the largest present (0 in an empty store, wrapping
   * like Go's int at the top of its range) and is appended. There is no ID uniqueness check.
   */
  function Add(s: Store, e: Entry): (r: Store)
    ensures |r.entries| == |s.entries| + 1 && r.loaded == s.loaded
    ensures r.entries[..|s.entries|] == s.entries
    ensures var added := r.entries[|s.entries|];
      && added == e.(order := added.order)
      && (|s.entries| == 0 ==> added.order == 0)
      && ((forall i :: 0 <= i < |s.entries| ==> s.entries[i].order < 0) ==> added.order == 0)
      && ((forall i :: 0 <= i < |s.entries| ==> s.entries[i].order < MAX_INT64) ==>
            && (forall i :: 0 <= i < |s.entries| ==> s.entries[i].order < added.order)
            && (added.order == 0 || exists i :: 0 <= i < |s.entries| && s.entries[i].order == added.order - 1))
      && ((exists i :: 0 <= i < |s.entries| && s.entries[i].order == MAX_INT64) ==>
            added.order == -(TWO_TO_63 as int))
  {
    var m := MaxOrder(s.entries);
    var order := WrapInt64(m + 1);
    s.(entries := s.entries + [e.(order := order)])
  }

  /** Update: the first entry with the new entry's ID is replaced; without one nothing changes. */
  function Update(s: Store, e: Entry): (r: Step)
    ensures r.outcome.Fail? <==> !Contains(s.entries, e.id)
    ensures r.outcome.Fail? ==> r.outcome.error == EntryNotFound && r.store == s
    ensures r.outcome.Pass? ==>
      && r.store.loaded == s.loaded
      && |r.store.entries| == |s.entries|
      && forall j :: 0 <= j < |s.entries| ==>
           r.store.entries[j] == if FirstMatch(s.entries, e.id, j) then e else s.entries[j]
  {
    match FindFirst(s.entries, e.id)
    case None => Step(s, Fail(EntryNotFound))
    case Some(i) =>
      assert forall j :: FirstMatch(s.entries, e.id, j) ==> j == i by {
        forall j | FirstMatch(s.entries, e.id, j) {
          FirstMatchUnique(s.entries, e.id, i, j);
        }
      }
      Step(s.(entries := s.entries[i := e]), Pass)
  }

  /** Delete: the first entry with the ID is removed and the rest keep their order. */
  function Delete(s: Store, id: string): (r: Step)
    ensures r.outcome.Fail? <==> !Contains(s.entries, id)
    ensures r.outcome.Fail? ==> r.outcome.error == EntryNotFound && r.store == s
    ensures r.outcome.Pass? ==>
      && r.store.loaded == s.loaded
      && |r.store.entries| == |s.entries| - 1
      && forall i :: FirstMatch(s.entries, id, i) ==>
           r.store.entries == s.entries[..i] + s.entries[i + 1..]
  {
    match FindFirst(s.entries, id)
    case None => Step(s, Fail(EntryNotFound))
    case Some(i) =>
      assert forall k :: FirstMatch(s.entries, id, k) ==> k == i by {
        forall k | FirstMatch(s.entries, id, k) {
          FirstMatchUnique(s.entries, id, i, k);
        }
      }
      Step(s.(entries := s.entries[..i] + s.entries[i + 1..]), Pass)
  }

  /** The inner loop of Reorder: the first entry with the ID gets the Order; others are untouched. */
  function SetOrder(es: seq<Entry>, id: string, order: int64): (r: seq<Entry>)
    ensures |r| == |es|
    ensures forall i :: 0 <= i < |es| ==>
      r[i] == if FirstMatch(es, id, i) then es[i].(order := order) else es[i]
  {
    match FindFirst(es, id)
    case None => es
    case Some(i) =>
      assert forall k :: FirstMatch(es, id, k) ==> k == i by {
        forall k | FirstMatch(es, id, k) {
          FirstMatchUnique(es, id, i, k);
        }
      }
      es[i := es[i].(order := order)]
  }

  /** The last position of an ID in a list: the Order that Reorder leaves behind for it. */
  function LastIndex(ids: seq<string>, id: string): (k: nat)
    requires id in ids
    ensures k < |ids| && ids[k] == id
    ensures forall j :: k < j < |ids| ==> ids[j] != id
  {
    if ids[|ids| - 1] == id then |ids| - 1
    else
      assert id in ids[..|ids| - 1] by {
        var j :| 0 <= j < |ids| && ids[j] == id;
        assert ids[..|ids| - 1][j] == id;
      }
      var k := LastIndex(ids[..|ids| - 1], id);
      assert ids[k] == ids[..|ids| - 1][k];
      k
  }

  /**
   * The outer loop of Reorder over ids[0..n): position k sets the Order of the first entry with
   * ID ids[k] to k. The IDs never change, so neither does which entry is first for an ID.
   */
  function ReorderEntries(es: seq<Entry>, ids: seq<string>): (r: seq<Entry>)
    requires |ids| <= TWO_TO_63
    ensures |r| == |es|
    ensures forall i :: 0 <= i < |es| ==> r[i] == es[i].(order := r[i].order)
    ensures forall i :: 0 <= i < |es| && IsFirst(es, i) && es[i].id in ids ==>
      r[i].order == LastIndex(ids, es[i].id)
    ensures forall i :: 0 <= i < |es| && !(IsFirst(es, i) && es[i].id in ids) ==>
      r[i].order == es[i].order
    decreases |ids|
  {
    if |ids| == 0 then es
    else
      var n := |ids| - 1;
      var init := ids[..n];
      var prev := ReorderEntries(es, init);
      ReorderStep(es, prev, ids);
      SetOrder(prev, ids[n], n)
  }

  /** One step of the outer loop keeps the contract of ReorderEntries. */
  lemma ReorderStep(es: seq<Entry>, prev: seq<Entry>, ids: seq<string>)
    requires |ids| > 0
    requires |prev| == |es|
    requires forall i :: 0 <= i < |es| ==> prev[i] == es[i].(order := prev[i].order)
    requires forall i :: 0 <= i < |es| && IsFirst(es, i) && es[i].id in ids[..|ids| - 1] ==>
      prev[i].order == LastIndex(ids[..|ids| - 1], es[i].id)
    requires forall i :: 0 <= i < |es| && !(IsFirst(es, i) && es[i].id in ids[..|ids| - 1]) ==>
      prev[i].order == es[i].order
    ensures |ids| - 1 < TWO_TO_63 ==>
      var r := SetOrder(prev, ids[|ids| - 1], |ids| - 1);
      && (forall i :: 0 <= i < |es| && IsFirst(es, i) && es[i].id in ids ==>
            r[i].order == LastIndex(ids, es[i].id))
      && (forall i :: 0 <= i < |es| && !(IsFirst(es, i) && es[i].id in ids) ==>
            r[i].order == es[i].order)
  {
    var n := |ids| - 1;
    if n < TWO_TO_63 {
      var r := SetOrder(prev, ids[n], n);
      forall i | 0 <= i < |es|
        ensures IsFirst(es, i) && es[i].id in ids ==> r[i].order == LastIndex(ids, es[i].id)
        ensures !(IsFirst(es, i) && es[i].id in ids) ==> r[i].order == es[i].order
      {
        assert forall j :: 0 <= j < |es| ==> prev[j].id == es[j].id;
        ReorderStepAt(es, prev, ids, i);
      }
    }
  }

  /** ReorderStep at one entry. */
  lemma ReorderStepAt(es: seq<Entry>, prev: seq<Entry>, ids: seq<string>, i: int)
    requires |ids| > 0 && |ids| - 1 < TWO_TO_63
    requires |prev| == |es| && 0 <= i < |es|
    requires forall j :: 0 <= j < |es| ==> prev[j].id == es[j].id
    requires IsFirst(es, i) && es[i].id in ids[..|ids| - 1] ==>
      prev[i].order == LastIndex(ids[..|ids| - 1], es[i].id)
    requires !(IsFirst(es, i) && es[i].id in ids[..|ids| - 1]) ==> prev[i].order == es[i].order
    ensures var r := SetOrder(prev, ids[|ids| - 1], |ids| - 1);
      && (IsFirst(es, i) && es[i].id in ids ==> r[i].order == LastIndex(ids, es[i].id))
      && (!(IsFirst(es, i) && es[i].id in ids) ==> r[i].order == es[i].order)
  {
    SameIdsFirst(es, prev, i);
    if es[i].id == ids[|ids| - 1] {
      ReorderStepAtLast(es, prev, ids, i);
    } else {
      ReorderStepAtOther(es, prev, ids, i);
    }
  }

  /** The entry's ID is the last one listed: its first occurrence takes the last index. */
  lemma ReorderStepAtLast(es: seq<Entry>, prev: seq<Entry>, ids: seq<string>, i: int)
    requires |ids| > 0 && |ids| - 1 < TWO_TO_63
    requires |prev| == |es| && 0 <= i < |es| && prev[i].id == es[i].id == ids[|ids| - 1]
    requires IsFirst(prev, i) <==> IsFirst(es, i)
    requires !IsFirst(es, i) ==> prev[i].order == es[i].order
    ensures var r := SetOrder(prev, ids[|ids| - 1], |ids| - 1);
      && (IsFirst(es, i) && es[i].id in ids ==> r[i].order == LastIndex(ids, es[i].id))
      && (!(IsFirst(es, i) && es[i].id in ids) ==> r[i].order == es[i].order)
  {
    var n := |ids| - 1;
    SetOrderAt(prev, ids[n], n, i);
    assert es[i].id in ids;
    assert LastIndex(ids, es[i].id) == n;
  }

  /** The entry's ID is not the last one listed: the step leaves it as it was. */
  lemma ReorderStepAtOther(es: seq<Entry>, prev: seq<Entry>, ids: seq<string>, i: int)
    requires |ids| > 0 && |ids| - 1 < TWO_TO_63
    requires |prev| == |es| && 0 <= i < |es| && prev[i].id == es[i].id != ids[|ids| - 1]
    requires IsFirst(es, i) && es[i].id in ids[..|ids| - 1] ==>
      prev[i].order == LastIndex(ids[..|ids| - 1], es[i].id)
    requires !(IsFirst(es, i) && es[i].id in ids[..|ids| - 1]) ==> prev[i].order == es[i].order
    ensures var r := SetOrder(prev, ids[|ids| - 1], |ids| - 1);
      && (IsFirst(es, i) && es[i].id in ids ==> r[i].order == LastIndex(ids, es[i].id))
      && (!(IsFirst(es, i) && es[i].id in ids) ==> r[i].order == es[i].order)
  {
    var n := |ids| - 1;
    SetOrderAt(prev, ids[n], n, i);
    LastIndexDrop(ids, es[i].id);
  }

  /** SetOrder at one position: only the first entry with the ID takes the new Order. */
  lemma SetOrderAt(es: seq<Entry>, id: string, order: int64, i: int)
    requires 0 <= i < |es|
    ensures var r := SetOrder(es, id, order);
      && (es[i].id == id && IsFirst(es, i) ==> r[i].order == order)
      && (!(es[i].id == id && IsFirst(es, i)) ==> r[i] == es[i])
  {
  }

  /** Lists with the same IDs position by position agree on which entries come first. */
  lemma SameIdsFirst(es: seq<Entry>, prev: seq<Entry>, i: int)
    requires |prev| == |es| && 0 <= i < |es|
    requires forall j :: 0 <= j < |es| ==> prev[j].id == es[j].id
    ensures IsFirst(prev, i) <==> IsFirst(es, i)
  {
  }

  /** An ID other than the last one is in the list as often as in the list without its last element. */
  lemma LastIndexDrop(ids: seq<string>, id: string)
    requires |ids| > 0 && ids[|ids| - 1] != id
    ensures id in ids <==> id in ids[..|ids| - 1]
    ensures id in ids ==> LastIndex(ids, id) == LastIndex(ids[..|ids| - 1], id)
  {
    var n := |ids| - 1;
    assert ids == ids[..n] + [ids[n]];
  }

  /** Reorder: never fails; IDs that match no entry are skipped. */
  function Reorder(s: Store, ids: seq<string>): (r: Store)
    requires |ids| <= TWO_TO_63
    ensures |r.entries| == |s.entries| && r.loaded == s.loaded
    ensures forall i :: 0 <= i < |s.entries| ==> r.entries[i] == s.entries[i].(order := r.entries[i].order)
    ensures forall i :: 0 <= i < |s.entries| && IsFirst(s.entries, i) && s.entries[i].id in ids ==>
      r.entries[i].order == LastIndex(ids, s.entries[i].id)
    ensures forall i :: 0 <= i < |s.entries| && !(IsFirst(s.entries, i) && s.entries[i].id in ids) ==>
      r.entries[i].order == s.entries[i].order
  {
    s.(entries := ReorderEntries(s.entries, ids))
  }

  // ---------------------------------------------------------------------------
  // GetAll: a copy sorted by Order.

  predicate SortedByOrder(es: seq<Entry>) {
    forall i, j :: 0 <= i < j < |es| ==> es[i].order <= es[j].order
  }

  /** Inserts one entry into a sorted list. */
  function Insert(e: Entry, es: seq<Entry>): (r: seq<Entry>)
    requires SortedByOrder(es)
    ensures SortedByOrder(r)
    ensures multiset(r) == multiset(es) + multiset{e}
    ensures |r| == |es| + 1
    ensures forall k :: 0 <= k < |r| ==> r[k] == e || r[k] in es
  {
    if |es| == 0 then [e]
    else if e.order <= es[0].order then
      assert forall k :: 0 < k < |es| ==> es[0].order <= es[k].order;
      [e] + es
    else
      var rest := Insert(e, es[1..]);
      InsertBelow(e, es, rest);
      assert es == [es[0]] + es[1..];
      [es[0]] + rest
  }

  /** The head of a sorted list stays below everything inserted behind it. */
  lemma InsertBelow(e: Entry, es: seq<Entry>, rest: seq<Entry>)
    requires |es| > 0 && SortedByOrder(es) && es[0].order < e.order
    requires SortedByOrder(rest)
    requires forall k :: 0 <= k < |rest| ==> rest[k] == e || rest[k] in es[1..]
    ensures SortedByOrder([es[0]] + rest)
    ensures forall k :: 0 <= k < |rest| + 1 ==> ([es[0]] + rest)[k] == e || ([es[0]] + rest)[k] in es
  {
    forall k | 0 <= k < |rest|
      ensures es[0].order <= rest[k].order
    {
      if rest[k] != e {
        var m :| 0 <= m < |es[1..]| && es[1..][m] == rest[k];
        assert es[m + 1] == rest[k];
      }
    }
    var r := [es[0]] + rest;
    forall i, j | 0 <= i < j < |r|
      ensures r[i].order <= r[j].order
    {
      if i > 0 {
        assert r[i] == rest[i - 1] && r[j] == rest[j - 1];
      } else {
        assert r[j] == rest[j - 1];
      }
    }
    forall k | 0 <= k < |r|
      ensures r[k] == e || r[k] in es
    {
      if k > 0 && r[k] != e {
        assert r[k] == rest[k - 1];
        assert rest[k - 1] in es[1..];
      }
    }
  }

  /** An ordering of the entries by Order: the tie order is this model's choice. */
  function SortByOrder(es: seq<Entry>): (r: seq<Entry>)
    ensures SortedByOrder(r)
    ensures multiset(r) == multiset(es)
    ensures |r| == |es|
  {
    if |es| == 0 then []
    else
      assert es == [es[0]] + es[1..];
      Insert(es[0], SortByOrder(es[1..]))
  }

  /**
   * GetAll: every stored entry exactly as often as it is stored, ascending by Order. sort.Slice
   * is not stable, so nothing is promised about entries with equal Order.
   */
  function GetAll(s: Store): (r: seq<Entry>)
    ensures SortedByOrder(r)
    ensures multiset(r) == multiset(s.entries)
    ensures |r| == Count(s)
  {
    SortByOrder(s.entries)
  }

  // ---------------------------------------------------------------------------
  // Persistence.

  /** The foreign codecs Load and Save use: Base64 (RFC 4648 section 4) and JSON. */
  datatype Codecs = Codecs(
    encode64: seq<byte> -> string,
    decode64: string -> Option<seq<byte>>,
    marshal: seq<Entry> -> seq<byte>,
    unmarshal: seq<byte> -> Option<seq<Entry>>)

  /** Both codecs invert their encoders, and Base64 writes something for a non-empty input. */
  ghost predicate ValidCodecs(c: Codecs) {
    && (forall b :: c.decode64(c.encode64(b)) == Some(b))
    && (forall b :: |b| > 0 ==> c.encode64(b) != "")
    && (forall es :: c.unmarshal(c.marshal(es)) == Some(es))
  }

  /**
   * Load from the stored preference string. An empty string is an empty, loaded store; any
   * failure is returned before the entries are replaced. The machine key is None when
   * DeriveKey failed.
   */
  function Load(s: Store, stored: string, c: Codecs, key: Option<string>, p: Crypto.Primitives): (r: Step)
    ensures stored == "" ==> r == Step(Store([], true), Pass)
    ensures r.outcome.Fail? ==> r.store == s
    ensures r.outcome.Pass? ==> r.store.loaded
    ensures stored != "" ==>
      && (c.decode64(stored).None? ==> r.outcome == Fail(StoredDataCorrupt))
      && (c.decode64(stored).Some? && key.None? ==> r.outcome == Fail(MachineKeyFailed))
      && (c.decode64(stored).Some? && key.Some? ==>
            var plain := Crypto.Decrypt(p, key.value, c.decode64(stored).value);
            && (plain.Failure? ==> r.outcome == Fail(CryptoFailed(plain.error)))
            && (plain.Success? ==>
                  && (c.unmarshal(plain.value).None? ==> r.outcome == Fail(JsonFailed))
                  && (c.unmarshal(plain.value).Some? ==>
                        r == Step(Store(c.unmarshal(plain.value).value, true), Pass))))
  {
    if stored == "" then Step(Store([], true), Pass)
    else match c.decode64(stored)
      case None => Step(s, Fail(StoredDataCorrupt))
      case Some(data) =>
        match key
        case None => Step(s, Fail(MachineKeyFailed))
        case Some(k) =>
          match Crypto.Decrypt(p, k, data)
          case Failure(e) => Step(s, Fail(CryptoFailed(e)))
          case Success(plain) =>
            match c.unmarshal(plain)
            case None => Step(s, Fail(JsonFailed))
            case Some(entries) => Step(Store(entries, true), Pass)
  }

  /** Save: the string written to the preferences, or the error that prevented writing it. */
  function Save(s: Store, c: Codecs, key: Option<string>, p: Crypto.Primitives,
                saltDraw: Option<seq<byte>>, nonceDraw: Option<seq<byte>>)
    : (r: Result<string, Error>)
    requires saltDraw.Some? ==> |saltDraw.value| == Crypto.SALT_SIZE
    requires nonceDraw.Some? ==> |nonceDraw.value| == Crypto.NONCE_SIZE
    ensures r.Failure? <==> key.None? || saltDraw.None? || nonceDraw.None?
    ensures key.None? ==> r == Failure(MachineKeyFailed)
    ensures key.Some? && r.Failure? ==> r.error == CryptoFailed(Crypto.RandomSourceFailed)
    ensures r.Success? ==>
      r.value == c.encode64(Crypto.Encrypt(p, key.value, c.marshal(s.entries), saltDraw, nonceDraw).value)
  {
    match key
    case None => Failure(MachineKeyFailed)
    case Some(k) =>
      match Crypto.Encrypt(p, k, c.marshal(s.entries), saltDraw, nonceDraw)
      case Failure(e) => Failure(CryptoFailed(e))
      case Success(data) => Success(c.encode64(data))
  }

  // ---------------------------------------------------------------------------
  // Properties.

  /** Count follows Add and Delete: one more after an Add, one fewer after a successful Delete. */
  lemma CountAddDelete(s: Store, e: Entry, id: string)
    ensures Count(Add(s, e)) == Count(s) + 1
    ensures Delete(s, id).outcome.Pass? ==> Count(Delete(s, id).store) == Count(s) - 1
    ensures Delete(s, id).outcome.Fail? ==> Count(Delete(s, id).store) == Count(s)
  {
  }

  /** An added entry whose ID is new is what Get returns for that ID. */
  lemma AddThenGet(s: Store, e: Entry)
    requires !Contains(s.entries, e.id)
    ensures var r := Add(s, e);
      Get(r, e.id) == Success(r.entries[|s.entries|]) && Get(r, e.id).value == e.(order := Get(r, e.id).value.order)
  {
    var r := Add(s, e);
    var n := |s.entries|;
    assert forall j :: 0 <= j < n ==> r.entries[j] == s.entries[j];
    assert FirstMatch(r.entries, e.id, n);
  }

  /** After an Update, Get returns the new entry. */
  lemma UpdateThenGet(s: Store, e: Entry)
    requires Contains(s.entries, e.id)
    ensures Get(Update(s, e).store, e.id) == Success(e)
  {
    var i := FindFirst(s.entries, e.id).value;
    var r := Update(s, e).store;
    assert r.entries[i] == e;
    assert forall j :: 0 <= j < i ==> r.entries[j] == s.entries[j];
    assert FirstMatch(r.entries, e.id, i);
  }

  /** Delete removes exactly one occurrence of the first matching entry. */
  lemma DeleteRemovesOne(s: Store, id: string)
    requires Contains(s.entries, id)
    ensures var i := FindFirst(s.entries, id).value;
      multiset(Delete(s, id).store.entries) + multiset{s.entries[i]} == multiset(s.entries)
  {
    var i := FindFirst(s.entries, id).value;
    var es := s.entries;
    var r := Delete(s, id).store.entries;
    assert r == es[..i] + es[i + 1..];
    assert es == es[..i] + [es[i]] + es[i + 1..];
    assert multiset(es) == multiset(es[..i]) + multiset{es[i]} + multiset(es[i + 1..]);
  }

  /** With unique IDs a deleted entry is gone for good. */
  lemma DeleteThenGet(s: Store, id: string)
    requires DistinctIds(s.entries) && Contains(s.entries, id)
    ensures Get(Delete(s, id).store, id) == Failure(EntryNotFound)
  {
    var es := s.entries;
    var i := FindFirst(es, id).value;
    var r := Delete(s, id).store.entries;
    assert r == es[..i] + es[i + 1..];
    forall k | 0 <= k < |r|
      ensures r[k].id != id
    {
      if k < i {
        assert r[k] == es[k];
      } else {
        assert r[k] == es[k + 1];
      }
    }
  }

  /** An entry with unique IDs occurs once in a list, so it occurs at most once in a permutation of it. */
  lemma {:induction false} DistinctOnce(es: seq<Entry>, x: Entry)
    requires DistinctIds(es)
    ensures multiset(es)[x] <= 1
  {
    if |es| > 0 {
      var init := es[..|es| - 1];
      assert es == init + [es[|es| - 1]];
      DistinctOnce(init, x);
      if x == es[|es| - 1] {
        assert x !in init by {
          forall k | 0 <= k < |init|
            ensures init[k] != x
          {
            assert init[k].id == es[k].id != es[|es| - 1].id;
          }
        }
      }
    }
  }

  /** Two equal positions in a list make the entry occur at least twice. */
  lemma RepeatTwice(es: seq<Entry>, i: int, j: int)
    requires 0 <= i < j < |es| && es[i] == es[j]
    ensures multiset(es)[es[i]] >= 2
  {
    var x := es[i];
    assert es == es[..j] + [es[j]] + es[j + 1..];
    assert es[..j][i] == x;
    assert x in multiset(es[..j]);
  }

  /** A strictly increasing list of n Orders all in [0, n) is 0, 1, …, n-1. */
  lemma {:induction false} StrictRanks(es: seq<Entry>)
    requires forall i, j :: 0 <= i < j < |es| ==> es[i].order < es[j].order
    requires forall i :: 0 <= i < |es| ==> 0 <= es[i].order < |es|
    ensures forall k :: 0 <= k < |es| ==> es[k].order == k
  {
    var n := |es|;
    forall k | 0 <= k < n
      ensures es[k].order == k
    {
      RankLower(es, k);
      RankUpper(es, k);
    }
  }

  lemma {:induction false} RankLower(es: seq<Entry>, k: nat)
    requires forall i, j :: 0 <= i < j < |es| ==> es[i].order < es[j].order
    requires forall i :: 0 <= i < |es| ==> 0 <= es[i].order
    requires k < |es|
    ensures es[k].order >= k
  {
    if k > 0 {
      RankLower(es, k - 1);
    }
  }

  lemma {:induction false} RankUpper(es: seq<Entry>, k: nat)
    requires forall i, j :: 0 <= i < j < |es| ==> es[i].order < es[j].order
    requires forall i :: 0 <= i < |es| ==> es[i].order < |es|
    requires k < |es|
    ensures es[k].order <= k
    decreases |es| - k
  {
    if k + 1 < |es| {
      RankUpper(es, k + 1);
    }
  }

  /** The entry's Order is a position of the ID list that holds the entry's ID. */
  predicate Ranked(x: Entry, ids: seq<string>) {
    0 <= x.order < |ids| && ids[x.order] == x.id
  }

  /** Reorder with every stored ID listed ranks every entry, and keeps the IDs unique. */
  lemma ReorderRanks(s: Store, ids: seq<string>)
    requires DistinctIds(s.entries)
    requires forall i :: 0 <= i < |s.entries| ==> s.entries[i].id in ids
    requires |ids| <= TWO_TO_63
    ensures var re := Reorder(s, ids).entries;
      DistinctIds(re) && forall i :: 0 <= i < |re| ==> Ranked(re[i], ids)
  {
    var es := s.entries;
    var re := Reorder(s, ids).entries;
    assert forall i :: 0 <= i < |es| ==> re[i].id == es[i].id;
    forall i | 0 <= i < |re|
      ensures Ranked(re[i], ids)
    {
      assert IsFirst(es, i);
    }
  }

  /**
   * A sorted permutation of ranked entries with unique IDs has strictly increasing Orders: two
   * equal Orders would name the same ID, hence the same entry twice.
   */
  lemma SortedRankedStrict(re: seq<Entry>, out: seq<Entry>, ids: seq<string>)
    requires DistinctIds(re) && forall i :: 0 <= i < |re| ==> Ranked(re[i], ids)
    requires SortedByOrder(out) && multiset(out) == multiset(re)
    ensures forall k :: 0 <= k < |out| ==> Ranked(out[k], ids)
    ensures forall i, j :: 0 <= i < j < |out| ==> out[i].order < out[j].order
  {
    forall k | 0 <= k < |out|
      ensures out[k] in re
    {
      assert out[k] in multiset(out);
    }
    forall k | 0 <= k < |out|
      ensures Ranked(out[k], ids)
    {
      var a :| 0 <= a < |re| && re[a] == out[k];
    }
    forall i, j | 0 <= i < j < |out|
      ensures out[i].order < out[j].order
    {
      if out[i].order == out[j].order {
        SameRankSameEntry(re, out[i], out[j], ids);
        RepeatTwice(out, i, j);
        DistinctOnce(re, out[i]);
        assert false;
      }
    }
  }

  /** Two entries of a list with unique IDs that share an Order-rank are the same entry. */
  lemma SameRankSameEntry(re: seq<Entry>, x: Entry, y: Entry, ids: seq<string>)
    requires DistinctIds(re) && x in re && y in re
    requires Ranked(x, ids) && Ranked(y, ids) && x.order == y.order
    ensures x == y
  {
    var a :| 0 <= a < |re| && re[a] == x;
    var b :| 0 <= b < |re| && re[b] == y;
    if a < b || b < a {
      assert false;
    }
  }

  /**
   * Reordering with a permutation of the stored IDs and then listing gives the entries in
   * exactly the order of the IDs, each with its position as Order.
   */
  lemma ReorderThenGetAll(s: Store, ids: seq<string>)
    requires DistinctIds(s.entries)
    requires |ids| == |s.entries|
    requires forall i :: 0 <= i < |s.entries| ==> s.entries[i].id in ids
    requires |ids| <= TWO_TO_63
    ensures var out := GetAll(Reorder(s, ids));
      |out| == |ids| && forall k :: 0 <= k < |out| ==> out[k].id == ids[k] && out[k].order == k
  {
    var re := Reorder(s, ids).entries;
    var out := GetAll(Reorder(s, ids));
    ReorderRanks(s, ids);
    SortedRankedStrict(re, out, ids);
    StrictRanks(out);
  }

  /** Saving and loading again gives back the saved entries, whatever the store held before. */
  lemma LoadSave(s: Store, t: Store, c: Codecs, key: string, p: Crypto.Primitives,
                 salt: seq<byte>, nonce: seq<byte>)
    requires ValidCodecs(c) && Crypto.OpensSealed(p)
    requires |salt| == Crypto.SALT_SIZE && |nonce| == Crypto.NONCE_SIZE
    ensures var saved := Save(s, c, Some(key), p, Some(salt), Some(nonce));
      saved.Success? && Load(t, saved.value, c, Some(key), p) == Step(Store(s.entries, true), Pass)
  {
    var plain := c.marshal(s.entries);
    Crypto.DecryptEncrypt(p, key, plain, salt, nonce);
    Crypto.EncryptLayout(p, key, plain, salt, nonce);
  }
}

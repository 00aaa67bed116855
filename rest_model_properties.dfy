/** What the paging provider promises, proved about the specification functions of
    RestModel: the memoising fill of `ensureData`, the sub-map of `data`, and `data`
    as a whole (bounds rejection, exact windows, memoisation, the class invariant). */
module RestModelProperties {
  import opened JavaLang
  import opened RestModel

  /** Records in strictly ascending id order. */
  predicate Ascending(s: seq<Record>) {
    forall i, j :: 0 <= i < j < |s| ==> s[i].id < s[j].id
  }

  /** Every record of `s` is the one stored under its id in `m`. */
  predicate StoredIn(s: seq<Record>, m: map<int, Record>) {
    forall j :: 0 <= j < |s| ==> s[j].id in m && m[s[j].id] == s[j]
  }

  // ---------------------------------------------------------------------------
  // Text clean-up of generated strings

  /** Stripping deletes every period and comma and keeps every other character as
      many times as it occurs. */
  lemma StripCounts(s: string)
    ensures forall x :: multiset(Strip(s))[x] == if x == '.' || x == ',' then 0 else multiset(s)[x]
  {
    RemoveAllCounts(s, '.');
    RemoveAllCounts(RemoveAll(s, '.'), ',');
  }

  /** Stripping twice is stripping once. */
  lemma StripIdempotent(s: string)
    ensures Strip(Strip(s)) == Strip(s)
  {
    var r := Strip(s);
    RemoveAllAbsent(r, '.');
    RemoveAllAbsent(r, ',');
  }

  // ---------------------------------------------------------------------------
  // The visited keys of ensureData

  lemma WindowKeysStep(offset: int, n: int)
    requires n > 0
    ensures WindowKeys(offset, n) == WindowKeys(offset, n - 1) + {Index(offset, n - 1)}
  {
    assert Index(offset, n - 1) in WindowKeys(offset, n);
  }

  lemma WindowKeysEmpty(offset: int, n: int)
    requires n <= 0
    ensures WindowKeys(offset, n) == {}
  {
  }

  /** When `offset + n` does not overflow, the visited keys are exactly [offset, offset + n). */
  lemma WindowKeysContiguous(offset: int, n: int)
    requires 0 <= n && IsInt(offset) && IsInt(offset + n)
    ensures forall k :: k in WindowKeys(offset, n) <==> offset <= k < offset + n
  {
    forall k | offset <= k < offset + n
      ensures k in WindowKeys(offset, n)
    {
      assert Index(offset, k - offset) == k;
    }
  }

  // ---------------------------------------------------------------------------
  // ensureData

  /** `generateDataItem`, as a record maker, stores the index it is given as the id
      and strips its texts. */
  lemma ItemMakerSound(gen: Generator)
    ensures MakesItems(Maker(gen), gen) && SoundMaker(Maker(gen))
  {
  }

  /** `generateDataItem` strips the title drawn first and the message drawn after it. */
  lemma ItemAtParts(gen: Generator, from: nat, index: int, title: string, message: string)
    requires title == GeneratedString(gen, from, TITLE_WORDS)
    requires message == GeneratedString(gen, from + TITLE_WORDS, MESSAGE_WORDS)
    ensures ItemAt(gen, from, index) == Record(index, Strip(title), Strip(message))
  {
  }

  /** Two makers that agree on every input fill the table alike. */
  lemma {:induction false} EnsuredAgree(m1: (nat, int) -> Record, m2: (nat, int) -> Record, t: Table, offset: int, n: int)
    requires forall from: nat, index: int :: m1(from, index) == m2(from, index)
    ensures Ensured(m1, t, offset, n) == Ensured(m2, t, offset, n)
    decreases n
  {
    if n > 0 {
      EnsuredAgree(m1, m2, t, offset, n - 1);
    }
  }

  /** Any maker that builds `generateDataItem`'s records fills the table exactly as
      `generateDataItem` itself does: the loop's outcome is fixed by the generator. */
  lemma EnsuredByItems(make: (nat, int) -> Record, gen: Generator, t: Table, offset: int, n: int)
    requires MakesItems(make, gen)
    ensures Ensured(make, t, offset, n) == Ensured(Maker(gen), t, offset, n)
  {
    forall from: nat, index: int
      ensures make(from, index) == Maker(gen)(from, index)
    {
      assert Maker(gen)(from, index) == ItemAt(gen, from, index);
    }
    EnsuredAgree(make, Maker(gen), t, offset, n);
  }

  /** The keys after the loop are the keys before plus every visited key. */
  lemma {:induction false} EnsuredKeys(make: (nat, int) -> Record, t: Table, offset: int, n: int)
    ensures Ensured(make, t, offset, n).backend.Keys == t.backend.Keys + WindowKeys(offset, n)
    decreases n
  {
    if n <= 0 {
      WindowKeysEmpty(offset, n);
    } else {
      EnsuredKeys(make, t, offset, n - 1);
      WindowKeysStep(offset, n);
    }
  }

  /** Every key the loop visits is present afterwards. */
  lemma EnsuredCovers(make: (nat, int) -> Record, t: Table, offset: int, n: int)
    ensures forall i :: 0 <= i < n ==> Index(offset, i) in Ensured(make, t, offset, n).backend
  {
    EnsuredKeys(make, t, offset, n);
    forall i | 0 <= i < n
      ensures Index(offset, i) in Ensured(make, t, offset, n).backend
    {
      assert Index(offset, i) in WindowKeys(offset, n);
    }
  }

  /** No entry present before the loop is overwritten. */
  lemma {:induction false} EnsuredKeeps(make: (nat, int) -> Record, t: Table, offset: int, n: int)
    ensures forall k :: k in t.backend ==>
      k in Ensured(make, t, offset, n).backend && Ensured(make, t, offset, n).backend[k] == t.backend[k]
    decreases n
  {
    if n > 0 {
      EnsuredKeeps(make, t, offset, n - 1);
    }
  }

  /** Every newly created entry is stored under its own id and has clean texts. */
  lemma {:induction false} EnsuredWellFormed(make: (nat, int) -> Record, t: Table, offset: int, n: int)
    requires SoundMaker(make) && WellFormed(t.backend)
    ensures WellFormed(Ensured(make, t, offset, n).backend)
    decreases n
  {
    if n > 0 {
      EnsuredWellFormed(make, t, offset, n - 1);
    }
  }

  /** `after` extends the keys of `t` and has spent exactly ITEM_DRAWS draws
      more than `t` per record it added. */
  ghost predicate DrawsAccounted(t: Table, after: Table) {
    t.backend.Keys <= after.backend.Keys &&
    after.draws == t.draws + ITEM_DRAWS * (|after.backend| - |t.backend|)
  }

  /** One round of the loop keeps the draws accounted for. */
  lemma DrawsStep(make: (nat, int) -> Record, t: Table, prev: Table, k: int)
    requires DrawsAccounted(t, prev)
    ensures DrawsAccounted(t, EnsureStep(make, prev, k))
  {
  }

  /** Random draws are spent only on records that did not exist: ITEM_DRAWS per new key. */
  lemma {:induction false} EnsuredDraws(make: (nat, int) -> Record, t: Table, offset: int, n: int)
    ensures t.backend.Keys <= Ensured(make, t, offset, n).backend.Keys
    ensures Ensured(make, t, offset, n).draws == t.draws + ITEM_DRAWS * (|Ensured(make, t, offset, n).backend| - |t.backend|)
    decreases n
  {
    if n > 0 {
      var prev := Ensured(make, t, offset, n - 1);
      EnsuredDraws(make, t, offset, n - 1);
      DrawsStep(make, t, prev, Index(offset, n - 1));
    }
  }

  /** When every visited key is already present, the loop changes nothing, not even
      the random generator. */
  lemma {:induction false} EnsuredNoOp(make: (nat, int) -> Record, t: Table, offset: int, n: int)
    requires WindowKeys(offset, n) <= t.backend.Keys
    ensures Ensured(make, t, offset, n) == t
    decreases n
  {
    if n > 0 {
      WindowKeysStep(offset, n);
      EnsuredNoOp(make, t, offset, n - 1);
    }
  }

  /** Running `ensureData` a second time with the same window is a no-op. */
  lemma EnsuredIdempotent(make: (nat, int) -> Record, t: Table, offset: int, n: int)
    ensures var once := Ensured(make, t, offset, n);
            Ensured(make, once, offset, n) == once
  {
    EnsuredKeys(make, t, offset, n);
    EnsuredNoOp(make, Ensured(make, t, offset, n), offset, n);
  }

  // ---------------------------------------------------------------------------
  // subMap(lo, hi).values()

  /** When every key of [lo, hi) is present, the sub-map holds exactly `hi - lo`
      values, the one for key `lo + j` at position `j`. */
  lemma {:induction false} SubMapValuesFull(m: map<int, Record>, lo: int, hi: int)
    requires lo <= hi
    requires forall k :: lo <= k < hi ==> k in m
    ensures |SubMapValues(m, lo, hi)| == hi - lo
    ensures forall j :: 0 <= j < hi - lo ==> SubMapValues(m, lo, hi)[j] == m[lo + j]
    decreases hi - lo
  {
    if lo < hi {
      SubMapValuesFull(m, lo, hi - 1);
    }
  }

  /** Over a well-formed table every value of the sub-map is a stored record whose
      id lies in [lo, hi). */
  lemma {:induction false} SubMapValuesStored(m: map<int, Record>, lo: int, hi: int)
    requires lo <= hi
    requires WellFormed(m)
    ensures forall r :: r in SubMapValues(m, lo, hi) ==> lo <= r.id < hi && r.id in m && m[r.id] == r
    decreases hi - lo
  {
    if lo < hi {
      SubMapValuesStored(m, lo, hi - 1);
    }
  }

  /** Over a well-formed table the sub-map's values are strictly ascending by id. */
  lemma {:induction false} SubMapValuesAscending(m: map<int, Record>, lo: int, hi: int)
    requires lo <= hi
    requires WellFormed(m)
    ensures forall i, j :: 0 <= i < j < |SubMapValues(m, lo, hi)| ==>
              SubMapValues(m, lo, hi)[i].id < SubMapValues(m, lo, hi)[j].id
    decreases hi - lo
  {
    if lo < hi {
      SubMapValuesAscending(m, lo, hi - 1);
      SubMapValuesStored(m, lo, hi - 1);
      var s := SubMapValues(m, lo, hi);
      var prefix := SubMapValues(m, lo, hi - 1);
      var tail := if hi - 1 in m then [m[hi - 1]] else [];
      assert s == prefix + tail;
      forall i, j | 0 <= i < j < |s|
        ensures s[i].id < s[j].id
      {
        assert s[i] == prefix[i];
        if j < |prefix| {
          assert s[j] == prefix[j];
        } else {
          assert prefix[i] in prefix;
          assert hi - 1 in m && s[j] == m[hi - 1];
        }
      }
    }
  }

  /** Every stored record whose key lies in [lo, hi) is among the sub-map's values. */
  lemma {:induction false} SubMapValuesComplete(m: map<int, Record>, lo: int, hi: int)
    requires lo <= hi
    ensures forall k :: lo <= k < hi && k in m ==> m[k] in SubMapValues(m, lo, hi)
    decreases hi - lo
  {
    if lo < hi {
      SubMapValuesComplete(m, lo, hi - 1);
    }
  }

  // ---------------------------------------------------------------------------
  // data(count, offset)

  /** `data` throws the bounds exception exactly when the bounds check fails, and
      then leaves the table untouched. */
  lemma DataRejected(make: (nat, int) -> Record, t: Table, count: int, offset: int)
    ensures var reply := DataReply(make, t, count, offset);
            (reply.result == Failure(BoundsExceeded) <==> count > MAX_COUNT || Wrap(count + offset) > SIZE) &&
            (reply.result == Failure(BoundsExceeded) ==> reply.table == t)
  {
  }

  /** A negative count whose sum with `offset` does not underflow passes the loop
      untouched and then makes `subMap` throw, so the table is unchanged. */
  lemma DataNegativeCount(make: (nat, int) -> Record, t: Table, count: int, offset: int)
    requires count < 0 && InBounds(count, offset) && IsInt(offset + count)
    ensures DataReply(make, t, count, offset) == Reply(Failure(IllegalArgument), t)
  {
  }

  /** A negative count whose sum with `offset` underflows wraps up by 2^32 past
      `offset`: if that passes the bounds check, the loop still does not run, and
      `subMap` serves every stored record with a key from `offset` up to the wrapped
      sum, table unchanged. */
  lemma DataNegativeCountWraps(make: (nat, int) -> Record, t: Table, count: int, offset: int)
    requires IsInt(count) && IsInt(offset)
    requires count < 0 && InBounds(count, offset) && !IsInt(offset + count)
    ensures Wrap(offset + count) == offset + count + TWO_32 > offset
    ensures DataReply(make, t, count, offset) ==
            Reply(Success(SubMapValues(t.backend, offset, Wrap(offset + count))), t)
  {
    WrapUnderflow(offset + count);
  }

  /** Splitting [lo, hi) at `mid` splits the sub-map's values. */
  lemma {:induction false} SubMapValuesSplit(m: map<int, Record>, lo: int, mid: int, hi: int)
    requires lo <= mid <= hi
    ensures SubMapValues(m, lo, hi) == SubMapValues(m, lo, mid) + SubMapValues(m, mid, hi)
    decreases hi - mid
  {
    if mid < hi {
      SubMapValuesSplit(m, lo, mid, hi - 1);
    }
  }

  /** The 500-record cap does not survive an underflowing count: with `offset` at
      `MIN_INT` and `count` at `MIN_INT + h`, the sum wraps to `h`, the request is
      accepted, and every stored record with a key in [0, h) is served. For a table
      holding the keys [0, 5000) that is 5000 records from one request. */
  lemma DataCapBypassed(make: (nat, int) -> Record, t: Table, h: int)
    requires 0 <= h <= SIZE
    requires forall k :: 0 <= k < h ==> k in t.backend
    ensures var reply := DataReply(make, t, MIN_INT + h, MIN_INT);
            reply.table == t && reply.result.Success? &&
            |reply.result.value| >= h &&
            forall k :: 0 <= k < h ==> t.backend[k] in reply.result.value
  {
    WrapUnderflow(MIN_INT + (MIN_INT + h));
    var m := t.backend;
    SubMapValuesSplit(m, MIN_INT, 0, h);
    SubMapValuesFull(m, 0, h);
    SubMapValuesComplete(m, MIN_INT, h);
    DataNegativeCountWraps(make, t, MIN_INT + h, MIN_INT);
  }

  /** An accepted window with a non-negative count that does not overflow is served
      exactly: `count` records with ids `offset, ..., offset + count - 1` in order,
      each the stored record for its id; the table gains exactly the window's keys
      and no existing entry changes. */
  lemma DataWindow(make: (nat, int) -> Record, t: Table, count: int, offset: int)
    requires SoundMaker(make) && WellFormed(t.backend)
    requires InBounds(count, offset) && 0 <= count && IsInt(offset) && IsInt(offset + count)
    ensures var reply := DataReply(make, t, count, offset);
            reply.result.Success? &&
            |reply.result.value| == count &&
            (forall j :: 0 <= j < count ==>
               reply.result.value[j].id == offset + j &&
               offset + j in reply.table.backend &&
               reply.result.value[j] == reply.table.backend[offset + j]) &&
            (forall k :: k in reply.table.backend <==> k in t.backend || offset <= k < offset + count) &&
            (forall k :: k in t.backend ==> k in reply.table.backend && reply.table.backend[k] == t.backend[k])
  {
    var after := Ensured(make, t, offset, count);
    var hi := offset + count;
    assert Wrap(offset + count) == hi;
    assert DataReply(make, t, count, offset) == Reply(Success(SubMapValues(after.backend, offset, hi)), after);
    EnsuredKeys(make, t, offset, count);
    EnsuredKeeps(make, t, offset, count);
    EnsuredWellFormed(make, t, offset, count);
    WindowKeysContiguous(offset, count);
    assert forall k :: k in after.backend <==> k in t.backend || offset <= k < hi;
    SubMapValuesFull(after.backend, offset, hi);
  }

  /** The reply, too, is fixed by the generator. */
  lemma DataByItems(make: (nat, int) -> Record, gen: Generator, t: Table, count: int, offset: int)
    requires MakesItems(make, gen)
    ensures DataReply(make, t, count, offset) == DataReply(Maker(gen), t, count, offset)
  {
    EnsuredByItems(make, gen, t, offset, count);
  }

  /** Asking for the same window twice gives the same answer and leaves the table as
      the first call left it: records are generated once and then served from the map. */
  lemma DataRepeat(make: (nat, int) -> Record, t: Table, count: int, offset: int)
    ensures var first := DataReply(make, t, count, offset);
            DataReply(make, first.table, count, offset) == first
  {
    if InBounds(count, offset) {
      EnsuredIdempotent(make, t, offset, count);
    }
  }

  /** A request, served or not, keeps the class invariant. */
  lemma DataWellFormed(make: (nat, int) -> Record, t: Table, count: int, offset: int)
    requires SoundMaker(make) && WellFormed(t.backend)
    ensures WellFormed(DataReply(make, t, count, offset).table.backend)
  {
    if InBounds(count, offset) {
      EnsuredWellFormed(make, t, offset, count);
    }
  }

  /** A request, served or not, never overwrites or removes a stored record. */
  lemma DataKeeps(make: (nat, int) -> Record, t: Table, count: int, offset: int)
    ensures var after := DataReply(make, t, count, offset).table.backend;
            forall k :: k in t.backend ==> k in after && after[k] == t.backend[k]
  {
    if InBounds(count, offset) {
      EnsuredKeeps(make, t, offset, count);
    }
  }

  /** Whatever window is served, it is the sub-map of the table after the call: its
      records appear in strictly ascending id order, each stored under its id, and
      every stored record whose key lies in [offset, offset + count) (as Java `int`s)
      is among them. This holds even for windows whose upper key overflows, where
      the sub-map may have gaps. */
  lemma DataServesSubMap(make: (nat, int) -> Record, t: Table, count: int, offset: int)
    requires SoundMaker(make) && WellFormed(t.backend)
    ensures var reply := DataReply(make, t, count, offset);
            reply.result.Success? ==>
              Ascending(reply.result.value) &&
              StoredIn(reply.result.value, reply.table.backend) &&
              (forall k :: offset <= k < Wrap(offset + count) && k in reply.table.backend ==>
                 reply.table.backend[k] in reply.result.value)
  {
    if InBounds(count, offset) {
      var after := Ensured(make, t, offset, count);
      EnsuredWellFormed(make, t, offset, count);
      var hi := Wrap(offset + count);
      if offset <= hi {
        var served := SubMapValues(after.backend, offset, hi);
        SubMapValuesAscending(after.backend, offset, hi);
        SubMapValuesStored(after.backend, offset, hi);
        SubMapValuesComplete(after.backend, offset, hi);
        assert forall j :: 0 <= j < |served| ==> served[j] in served;
      }
    }
  }

  /** A negative offset is not rejected: ten records starting at -5 are created and
      served with ids -5 through 4. */
  lemma DataNegativeOffset(make: (nat, int) -> Record, t: Table)
    requires SoundMaker(make) && WellFormed(t.backend)
    ensures var reply := DataReply(make, t, 10, -5);
            reply.result.Success? && |reply.result.value| == 10 &&
            forall j :: 0 <= j < 10 ==> reply.result.value[j].id == j - 5
  {
    DataWindow(make, t, 10, -5);
  }

  /** `offset = MAX_INT, count = 1` passes the bounds check because `count + offset`
      wraps to MIN_INT; the loop then creates the record for MAX_INT before `subMap`
      throws, so the request fails but the table has grown. */
  lemma DataOverflow(make: (nat, int) -> Record, t: Table)
    ensures var reply := DataReply(make, t, 1, MAX_INT);
            reply.result == Failure(IllegalArgument) &&
            MAX_INT in reply.table.backend &&
            (MAX_INT !in t.backend ==> reply.table.draws == t.draws + ITEM_DRAWS)
  {
    assert Ensured(make, t, MAX_INT, 0) == t;
    assert Index(MAX_INT, 0) == MAX_INT;
  }

  /** The documented edge cases: 501 records are too many, a record at 10000 is past
      the end, and an empty window at 10000 is served empty without touching the table. */
  lemma DataEdgeCases(make: (nat, int) -> Record, t: Table)
    ensures DataReply(make, t, 501, 0) == Reply(Failure(BoundsExceeded), t)
    ensures DataReply(make, t, 1, SIZE) == Reply(Failure(BoundsExceeded), t)
    ensures DataReply(make, t, 0, SIZE) == Reply(Success([]), t)
  {
  }
}

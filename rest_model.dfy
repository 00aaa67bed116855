/** Values and specification functions of the paging REST provider
    (src/main/java/backend/restprovider/RESTProvider.java): the records it serves,
    the content generator it draws from, and what `ensureData` and `data` compute
    from a given table. */
module RestModel {
  import opened JavaLang

  /** At most this many records are served by one `data` request. */
  const MAX_COUNT: int := 500
  /** The capacity of the virtual dataset, which `count` reports. */
  const SIZE: int := 10000
  /** Words drawn for a title and for a message. */
  const TITLE_WORDS: nat := 5
  const MESSAGE_WORDS: nat := 15
  /** Random draws consumed by generating one record: TITLE_WORDS + MESSAGE_WORDS. */
  const ITEM_DRAWS: nat := 20

  /** One served row (the provider's `RESTData` bean). */
  datatype Record = Record(id: int, title: string, message: string)

  /** `RuntimeException("indexes outside bounds")` thrown by `data` itself, and the
      `IllegalArgumentException` that `TreeMap.subMap` throws when its lower key
      exceeds its upper key. */
  datatype Error = BoundsExceeded | IllegalArgument

  datatype Result<T> = Success(value: T) | Failure(error: Error)

  /** The parts of content generation this model leaves abstract: `wordAt(k)` is the
      vocabulary word picked by the k-th `rand.nextInt` draw of the provider's random
      generator, and `capitalize` is `WordUtils.capitalizeFully`. */
  datatype Generator = Generator(wordAt: nat -> string, capitalize: string -> string)

  /** The provider's mutable state: the `BACKEND` map and how many random draws
      have been made so far. */
  datatype Table = Table(backend: map<int, Record>, draws: nat)

  /** What one `data` request returns (or throws) and the table it leaves behind. */
  datatype Reply = Reply(result: Result<seq<Record>>, table: Table)

  /** A generated text holds neither a period nor a comma. */
  predicate Clean(s: string) {
    '.' !in s && ',' !in s
  }

  /** `s.replace(".", "").replace(",", "")`. */
  function Strip(s: string): (r: string)
    ensures Clean(r)
    ensures forall ch :: ch in r <==> ch in s && ch != '.' && ch != ','
  {
    RemoveAll(RemoveAll(s, '.'), ',')
  }

  /** The string builder of `generateString` after `n` rounds of its loop, when the
      first round makes draw number `from`: each drawn word followed by a space. */
  function Joined(gen: Generator, from: nat, n: nat): (r: string)
    ensures |r| >= n
  {
    if n == 0 then [] else Joined(gen, from, n - 1) + gen.wordAt(from + n - 1) + " "
  }

  /** The result of `generateString(n)` when its first draw is number `from`. */
  function GeneratedString(gen: Generator, from: nat, n: nat): (r: string)
    ensures |r| > 0 && r[|r| - 1] == '.'
  {
    gen.capitalize(Trim(Joined(gen, from, n))) + "."
  }

  /** The record `generateDataItem(index)` builds when its first draw is number
      `from`: the title takes the next five draws, the message the fifteen after. */
  function ItemAt(gen: Generator, from: nat, index: int): (r: Record)
    ensures r.id == index
    ensures Clean(r.title) && Clean(r.message)
  {
    Record(index,
           Strip(GeneratedString(gen, from, TITLE_WORDS)),
           Strip(GeneratedString(gen, from + TITLE_WORDS, MESSAGE_WORDS)))
  }

  /** How `ensureData` makes the record for a key, given the draws made so far:
      `generateDataItem` over this model's generator. */
  function Maker(gen: Generator): (nat, int) -> Record {
    (from: nat, index: int) => ItemAt(gen, from, index)
  }

  /** `make` builds exactly the records `generateDataItem` builds. The trigger keeps
      this fact dormant until a concrete `ItemAt` term is in play. */
  ghost predicate MakesItems(make: (nat, int) -> Record, gen: Generator) {
    forall from: nat, index: int {:trigger ItemAt(gen, from, index)} ::
      make(from, index) == ItemAt(gen, from, index)
  }

  /** A record maker that stores the requested index as the id and keeps texts clean. */
  ghost predicate SoundMaker(make: (nat, int) -> Record) {
    forall from: nat, index: int {:trigger make(from, index)} ::
      make(from, index).id == index && Clean(make(from, index).title) && Clean(make(from, index).message)
  }

  /** The class invariant of the provider: every entry is stored under its own id
      (a Java `int`), and its texts are clean. */
  ghost predicate WellFormed(m: map<int, Record>) {
    forall k :: k in m ==>
      m[k].id == k && IsInt(k) && Clean(m[k].title) && Clean(m[k].message)
  }

  /** The key visited by round `i` of `ensureData`'s loop: `offset + i` as a Java `int`. */
  function Index(offset: int, i: int): (r: int)
    ensures IsInt(r)
    ensures IsInt(offset + i) ==> r == offset + i
  {
    Wrap(offset + i)
  }

  /** The keys visited by the first `n` rounds of `ensureData`'s loop. */
  ghost function WindowKeys(offset: int, n: int): set<int> {
    set i | 0 <= i < n :: Index(offset, i)
  }

  /** One round of `ensureData`'s loop for key `k`: an absent key gets a record made
      by `make` from the current draws, which costs ITEM_DRAWS draws; a present key is
      left alone. */
  function EnsureStep(make: (nat, int) -> Record, prev: Table, k: int): (r: Table)
    ensures k in r.backend && prev.backend.Keys <= r.backend.Keys
  {
    if k in prev.backend then prev
    else Table(prev.backend[k := make(prev.draws, k)], prev.draws + ITEM_DRAWS)
  }

  /** The table after `n` rounds of `ensureData(count, offset)` from `t`, the round
      `i` visiting `Index(offset, i)`. With `n <= 0` the loop does not run. */
  function Ensured(make: (nat, int) -> Record, t: Table, offset: int, n: int): Table
    decreases n
  {
    if n <= 0 then t
    else EnsureStep(make, Ensured(make, t, offset, n - 1), Index(offset, n - 1))
  }

  /** `new ArrayList<>(m.subMap(lo, hi).values())` for `lo <= hi`: the values
      stored under the keys in the half-open range [lo, hi), ascending by key. */
  function SubMapValues(m: map<int, Record>, lo: int, hi: int): (r: seq<Record>)
    requires lo <= hi
    ensures |r| <= hi - lo
    decreases hi - lo
  {
    if lo == hi then []
    else SubMapValues(m, lo, hi - 1) + (if hi - 1 in m then [m[hi - 1]] else [])
  }

  /** The bounds check of `data`: what is not rejected there. */
  predicate InBounds(count: int, offset: int) {
    count <= MAX_COUNT && Wrap(count + offset) <= SIZE
  }

  /** `data(count, offset)` from table `t`, records being made by `make`: reject
      out-of-bounds windows, otherwise ensure the window's records exist, then take
      the sub-map, which throws when the upper key (as a Java `int`) is below `offset`. */
  function DataReply(make: (nat, int) -> Record, t: Table, count: int, offset: int): Reply
  {
    if !InBounds(count, offset) then Reply(Failure(BoundsExceeded), t)
    else
      var after := Ensured(make, t, offset, count);
      var hi := Wrap(offset + count);
      if offset > hi then Reply(Failure(IllegalArgument), after)
      else Reply(Success(SubMapValues(after.backend, offset, hi)), after)
  }
}

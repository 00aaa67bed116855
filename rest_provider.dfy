/** The `RESTProvider` controller itself: an object whose `BACKEND` map is filled
    lazily by `data` requests. Each method is proved against the specification
    functions of `RestModel`, whose properties `RestModelProperties` proves. */
module RestProvider {
  import opened JavaLang
  import opened RestModel
  import opened RestModelProperties

  class Provider {
    /** The random word source and `WordUtils.capitalizeFully`. */
    const gen: Generator
    /** `generateDataItem` as a function of the draws made so far and the key. */
    ghost const make: (nat, int) -> Record
    /** `BACKEND`: the records generated so far, by key. */
    var backend: map<int, Record>
    /** How many `rand.nextInt` draws have been made so far. */
    var draws: nat

    /** Every stored record sits under its own id and has clean texts, and `make`
        is `generateDataItem`. */
    ghost predicate Valid()
      reads this
    {
      WellFormed(backend) && SoundMaker(make) && MakesItems(make, gen)
    }

    /** The mutable state as a value, for the specification functions. */
    function State(): Table
      reads this
    {
      Table(backend, draws)
    }

    /** A fresh provider has an empty `BACKEND`. */
    constructor(gen: Generator)
      ensures Valid()
      ensures this.gen == gen && backend == map[] && draws == 0
    {
      this.gen := gen;
      make := Maker(gen);
      backend := map[];
      draws := 0;
      ItemMakerSound(gen);
    }

    /** `GET /count`: the size of the virtual dataset, whatever has been generated. */
    method Count() returns (n: int)
      ensures n == SIZE
    {
      n := SIZE;
    }

    /** `generateString(numWords)`: draws `numWords` words, joins them with spaces,
        trims, capitalises and appends a period. */
    method GenerateString(numWords: nat) returns (s: string)
      modifies this`draws
      ensures draws == old(draws) + numWords
      ensures s == GeneratedString(gen, old(draws), numWords)
    {
      var sb: string := [];
      var i: nat := 0;
      while i < numWords
        invariant i <= numWords
        invariant draws == old(draws) + i
        invariant sb == Joined(gen, old(draws), i)
      {
        var word := gen.wordAt(draws);
        draws := draws + 1;
        sb := sb + word;
        sb := sb + " ";
        i := i + 1;
      }
      s := gen.capitalize(Trim(sb)) + ".";
    }

    /** `generateDataItem(dataIndex)`: a record with the given id, a five-word title
        and a fifteen-word message, both without periods or commas; it is `make`'s
        record for the current draws. */
    method GenerateDataItem(dataIndex: int) returns (item: Record)
      requires MakesItems(make, gen)
      modifies this`draws
      ensures draws == old(draws) + ITEM_DRAWS
      ensures item == make(old(draws), dataIndex)
      ensures item.id == dataIndex && Clean(item.title) && Clean(item.message)
    {
      ghost var from := draws;
      var title := GenerateString(TITLE_WORDS);
      ghost var mid := draws;
      var message := GenerateString(MESSAGE_WORDS);
      assert mid == from + TITLE_WORDS;
      item := Record(dataIndex, Strip(title), Strip(message));
      ItemAtParts(gen, from, dataIndex, title, message);
    }

    /** `ensureData(count, offset)`: visits the keys `offset + i` (as Java `int`s) for
        `i` from 0 below `count`, and generates a record for each key not yet stored,
        so that afterwards every visited key is stored. That no stored record changes
        and no other key is added are lemmas about `Ensured` (`EnsuredKeeps`,
        `EnsuredKeys`). */
    method EnsureData(count: int, offset: int)
      requires Valid()
      modifies this`backend, this`draws
      ensures Valid()
      ensures State() == Ensured(make, old(State()), offset, count)
      ensures forall i :: 0 <= i < count ==> Index(offset, i) in backend
    {
      ghost var start := State();
      var i := 0;
      while i < count
        invariant 0 <= i <= if count <= 0 then 0 else count
        invariant State() == Ensured(make, start, offset, i)
      {
        var dataIndex := Wrap(offset + i);
        if dataIndex !in backend {
          var item := GenerateDataItem(dataIndex);
          backend := backend[dataIndex := item];
        }
        i := i + 1;
      }
      EnsuredWellFormed(make, start, offset, count);
      EnsuredCovers(make, start, offset, count);
    }

    /** `GET /data?count=..&offset=..`: rejects a window that is too long or reaches
        past `SIZE`, otherwise generates the missing records and returns the stored
        records whose keys lie in [offset, offset + count). What that reply and the
        new table satisfy is proved about `DataReply` in `RestModelProperties`. */
    method Data(count: int, offset: int) returns (r: Result<seq<Record>>)
      requires Valid()
      modifies this`backend, this`draws
      ensures Valid()
      ensures Reply(r, State()) == DataReply(make, old(State()), count, offset)
      ensures r == Failure(BoundsExceeded) <==> count > MAX_COUNT || Wrap(count + offset) > SIZE
    {
      if count > MAX_COUNT || Wrap(count + offset) > SIZE {
        return Failure(BoundsExceeded);
      }
      EnsureData(count, offset);
      var hi := Wrap(offset + count);
      if offset > hi {
        return Failure(IllegalArgument);
      }
      r := Success(SubMapValues(backend, offset, hi));
    }
  }
}

/** The `BreakingNews` entity of the `breakingnews` table: its fields, accessors,
    `is_network`, the formatted `day`, `age`, `read` and `update`. */
module News {
  import opened Wrappers
  import Dates

  /** The stored state of one item. `id` is `None` until the storage layer
      assigns a primary key. */
  datatype Record = Record(id: Option<int>, title: string, network: string, day: Dates.Date)

  /** What `update(title, network)` does to a record: each non-empty
      argument overwrites its field; everything else stays. */
  function ApplyUpdate(r: Record, title: string, network: string): (u: Record)
    ensures u.id == r.id && u.day == r.day
    ensures u.title == title || u.title == r.title
    ensures u.network == network || u.network == r.network
  {
    r.(title := if |title| > 0 then title else r.title,
       network := if |network| > 0 then network else r.network)
  }

  /** A non-empty title is stored; an empty one leaves the old title. */
  lemma UpdateTitle(r: Record, title: string, network: string)
    ensures |title| > 0 ==> ApplyUpdate(r, title, network).title == title
    ensures |title| == 0 ==> ApplyUpdate(r, title, network).title == r.title
  {
  }

  /** A non-empty network is stored; an empty one leaves the old network. */
  lemma UpdateNetwork(r: Record, title: string, network: string)
    ensures |network| > 0 ==> ApplyUpdate(r, title, network).network == network
    ensures |network| == 0 ==> ApplyUpdate(r, title, network).network == r.network
  {
  }

  /** Applying the same arguments twice is the same as applying them once. */
  lemma UpdateIdempotent(r: Record, title: string, network: string)
    ensures ApplyUpdate(ApplyUpdate(r, title, network), title, network) == ApplyUpdate(r, title, network)
  {
  }

  /** `update()` with both arguments at their empty defaults changes nothing. */
  lemma UpdateDefaultsChangeNothing(r: Record)
    ensures ApplyUpdate(r, "", "") == r
  {
  }

  /** Two updates in a row: for each field the later non-empty argument wins,
      or else the earlier one, or else the old value. */
  lemma UpdateLaterWins(r: Record, t1: string, n1: string, t2: string, n2: string)
    ensures ApplyUpdate(ApplyUpdate(r, t1, n1), t2, n2)
         == ApplyUpdate(r, if |t2| > 0 then t2 else t1, if |n2| > 0 then n2 else n1)
  {
  }

  /** The values stored in the dictionary `read` returns. */
  datatype Value = NoneValue | IntValue(i: int) | StrValue(s: string)

  function IdValue(id: Option<int>): (v: Value) {
    match id
    case None => NoneValue
    case Some(k) => IntValue(k)
  }

  /** The keys of the dictionary `read` returns. */
  const ReadKeys: set<string> := {"id", "title", "network", "day", "age"}

  /** One row of the `breakingnews` table, as the program holds it. */
  class BreakingNews {
    var id: Option<int>
    var title: string
    var network: string
    var day: Dates.Date

    /** The whole state of the object as a value: the abstraction that the
        methods' contracts are stated in. */
    function State(): (r: Record)
      reads this
      ensures r.id == id && r.title == title && r.network == network && r.day == day
    {
      Record(id, title, network, day)
    }

    /** `BreakingNews(title, network, day)`; no key yet. The default `day`
        (the date when the module was loaded) is not modelled: pass it. */
    constructor (title: string, network: string, day: Dates.Date)
      ensures State() == Record(None, title, network, day)
    {
      this.id := None;
      this.title := title;
      this.network := network;
      this.day := day;
    }

    /** The `title` setter. */
    method SetTitle(title: string)
      modifies this
      ensures State() == old(State()).(title := title)
    {
      this.title := title;
    }

    /** The `network` setter. */
    method SetNetwork(network: string)
      modifies this
      ensures State() == old(State()).(network := network)
    {
      this.network := network;
    }

    /** The `day` setter: takes a date, while the getter gives a string. */
    method SetDay(day: Dates.Date)
      modifies this
      ensures State() == old(State()).(day := day)
    {
      this.day := day;
    }

    /** `is_network(network)`: exact, case-sensitive equality with the stored
        network, compared character by character over the whole string. */
    predicate IsNetwork(network: string)
      reads this
      ensures IsNetwork(network)
          <==> |this.network| == |network| && forall i :: 0 <= i < |network| ==> this.network[i] == network[i]
    {
      this.network == network
    }

    /** The `day` getter: the date as `MM-DD-YYYY`, a string from which the
        stored date can be read back. */
    function DayString(): (s: string)
      reads this
      ensures |s| == 10 && s[2] == '-' && s[5] == '-'
      ensures Dates.ParseDay(s) == Some(day)
    {
      Dates.ParseFormatDay(day);
      Dates.FormatDay(day)
    }

    /** The `age` property on a given `today`: the number of anniversaries of
        `day` reached by `today`. */
    function Age(today: Dates.Date): (n: int)
      reads this
      ensures forall k :: Dates.AnniversaryReached(day, today, k) <==> k <= n
    {
      Dates.Age(today, day)
    }

    /** `read()`: a dictionary snapshot of the fields and the derived values. */
    function Read(today: Dates.Date): (m: map<string, Value>)
      reads this
      ensures m.Keys == ReadKeys
      ensures m["id"] == IdValue(id)
      ensures m["title"] == StrValue(title)
      ensures m["network"] == StrValue(network)
      ensures m["day"] == StrValue(DayString())
      ensures m["age"] == IntValue(Age(today))
    {
      map["id" := IdValue(id), "title" := StrValue(title), "network" := StrValue(network),
          "day" := StrValue(DayString()), "age" := IntValue(Age(today))]
    }

    /** `update(title, network)`: overwrites each field whose argument is
        non-empty, through the setters, and returns the object itself. The
        commit to the database session is not modelled. */
    method Update(title: string := "", network: string := "") returns (r: BreakingNews)
      modifies this
      ensures r == this
      ensures State() == ApplyUpdate(old(State()), title, network)
    {
      if |title| > 0 {
        SetTitle(title);
      }
      if |network| > 0 {
        SetNetwork(network);
      }
      r := this;
    }
  }

  /** An item from "Fox" is from "Fox" and not from "fox" or "FOX". */
  lemma IsNetworkCaseSensitive(news: BreakingNews)
    requires news.network == "Fox"
    ensures news.IsNetwork("Fox")
    ensures !news.IsNetwork("fox") && !news.IsNetwork("FOX")
  {
  }

  /** The snapshot loses nothing: on the same `today`, two items with the
      same `read()` dictionary have the same state. */
  lemma ReadDeterminesState(a: BreakingNews, b: BreakingNews, today: Dates.Date)
    requires a.Read(today) == b.Read(today)
    ensures a.State() == b.State()
  {
  }

  /** After `update` with an empty title, `read()` shows the old title and only
      the network may differ: the scenario of an update that names only a network. */
  method UpdateNetworkOnly(news: BreakingNews, network: string, today: Dates.Date)
    requires |network| > 0
    modifies news
    ensures news.Read(today) == old(news.Read(today))["network" := StrValue(network)]
  {
    var _ := news.Update("", network);
  }
}

/**
 * The title of the final window:
 * `string.Join(',', interestingColors.Select(ic => $"{ic.Name}={ic.BlobsFound}"))`,
 * together with a reader that recovers the per-colour counts from it.
 */
module Summary {
  import opened CSharp

  /** One colour's name and its `BlobsFound`. */
  datatype Tally = Tally(name: string, count: int)

  /** `$"{Name}={BlobsFound}"`. */
  function Entry(t: Tally): (e: string) {
    t.name + "=" + IntToString(t.count)
  }

  function Entries(ts: seq<Tally>): (es: seq<string>)
    ensures |es| == |ts|
  {
    seq(|ts|, i requires 0 <= i < |ts| => Entry(ts[i]))
  }

  /** The summary title: the entries in catalog order, separated by commas. */
  function Title(ts: seq<Tally>): (title: string) {
    Join(Entries(ts), ',')
  }

  /** No name holds the title's separator. */
  predicate CommaFreeNames(ts: seq<Tally>) {
    forall i :: 0 <= i < |ts| ==> ',' !in ts[i].name
  }

  /** The names the title can be read back for: no `,` and no `=`. */
  predicate PlainNames(ts: seq<Tally>) {
    CommaFreeNames(ts) && forall i :: 0 <= i < |ts| ==> '=' !in ts[i].name
  }

  function ParseEntry(e: string): (r: Option<Tally>) {
    var fields := Split(e, '=');
    if |fields| != 2 then None
    else match ParseInt(fields[1])
      case None => None
      case Some(n) => Some(Tally(fields[0], n))
  }

  function ParseEntries(es: seq<string>): (r: Option<seq<Tally>>) {
    if es == [] then Some([])
    else match (ParseEntry(es[0]), ParseEntries(es[1..]))
      case (Some(t), Some(ts)) => Some([t] + ts)
      case _ => None
  }

  /** Reads a title back into its name/count pairs. */
  function ParseTitle(title: string): (r: Option<seq<Tally>>) {
    ParseEntries(Split(title, ','))
  }

  /** Without `=` in the name, an entry is the join of the name and the count on `=`. */
  lemma EntryShape(t: Tally)
    requires '=' !in t.name
    ensures Entry(t) == Join([t.name, IntToString(t.count)], '=')
    ensures '=' !in IntToString(t.count)
  {
  }

  /** An entry holds a `,` only where its name does, and it is never empty. */
  lemma EntryWithoutComma(t: Tally)
    requires ',' !in t.name
    ensures ',' !in Entry(t) && |Entry(t)| >= 1
  {
  }

  lemma EntryRoundTrip(t: Tally)
    requires '=' !in t.name
    ensures ParseEntry(Entry(t)) == Some(t)
  {
    EntryShape(t);
    SplitJoin([t.name, IntToString(t.count)], '=');
    IntToStringRoundTrip(t.count);
  }

  lemma {:induction false} ParseEntriesRoundTrip(ts: seq<Tally>)
    requires PlainNames(ts)
    ensures ParseEntries(Entries(ts)) == Some(ts)
  {
    if ts != [] {
      EntryRoundTrip(ts[0]);
      assert Entries(ts)[1..] == Entries(ts[1..]);
      ParseEntriesRoundTrip(ts[1..]);
      assert [ts[0]] + ts[1..] == ts;
    }
  }

  /** No entry of the title holds a comma when no name does. */
  lemma EntriesWithoutComma(ts: seq<Tally>)
    requires CommaFreeNames(ts)
    ensures forall k :: 0 <= k < |ts| ==> ',' !in Entries(ts)[k]
  {
    forall k | 0 <= k < |ts| ensures ',' !in Entries(ts)[k] {
      EntryWithoutComma(ts[k]);
    }
  }

  /** The title gives back every name and count, in catalog order. */
  lemma TitleRoundTrip(ts: seq<Tally>)
    requires |ts| >= 1 && PlainNames(ts)
    ensures ParseTitle(Title(ts)) == Some(ts)
  {
    EntriesWithoutComma(ts);
    SplitJoin(Entries(ts), ',');
    ParseEntriesRoundTrip(ts);
  }

  /** With `n >= 1` colours whose names hold no comma, the title holds exactly `n - 1` commas. */
  lemma TitleCommaCount(ts: seq<Tally>)
    requires |ts| >= 1 && CommaFreeNames(ts)
    ensures multiset(Title(ts))[','] == |ts| - 1
  {
    EntriesWithoutComma(ts);
    JoinSeparatorCount(Entries(ts), ',');
  }

  /** The title starts with the first colour's entry and ends with the last colour's entry. */
  lemma TitleEnds(ts: seq<Tally>)
    requires |ts| >= 1
    ensures |Title(ts)| >= |Entry(ts[0])| && Title(ts)[..|Entry(ts[0])|] == Entry(ts[0])
    ensures |Title(ts)| >= |Entry(ts[|ts| - 1])|
      && Title(ts)[|Title(ts)| - |Entry(ts[|ts| - 1])|..] == Entry(ts[|ts| - 1])
  {
    JoinEnds(Entries(ts), ',');
  }

  /** With comma-free names the title neither starts nor ends with a comma. */
  lemma TitleNoStrayComma(ts: seq<Tally>)
    requires |ts| >= 1 && CommaFreeNames(ts)
    ensures |Title(ts)| >= 1 && Title(ts)[0] != ',' && Title(ts)[|Title(ts)| - 1] != ','
  {
    EntriesWithoutComma(ts);
    EntryWithoutComma(ts[0]);
    EntryWithoutComma(ts[|ts| - 1]);
    JoinNoStraySeparator(Entries(ts), ',');
  }

  /** A name may hold `=`: the comma count still holds. */
  lemma CommaCountWithEquals()
    ensures multiset(Title([Tally("a=b", 1), Tally("c", 2)]))[','] == 1
  {
    TitleCommaCount([Tally("a=b", 1), Tally("c", 2)]);
  }

  /** One blob of each catalog colour gives the title "DarkB=1,Light=1". */
  lemma ExampleTitle()
    ensures Title([Tally("DarkB", 1), Tally("Light", 1)]) == "DarkB=1,Light=1"
  {
    assert IntToString(1) == "1";
    assert Entry(Tally("DarkB", 1)) == "DarkB=1";
    assert Entry(Tally("Light", 1)) == "Light=1";
    assert Entries([Tally("DarkB", 1), Tally("Light", 1)]) == ["DarkB=1", "Light=1"];
  }
}

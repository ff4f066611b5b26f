/** The historical-price store (IIexHistoricalPriceRpsy): rows in insertion order. Every new
  * entity gets its own generated id, so nothing makes (symbol, date) unique; ids themselves are
  * not modelled, since the core only ever saves freshly fetched rows. */
module Repository {
  import opened Domain
  import opened Text

  predicate HasKey(row: HistoricalPrice, symbol: string, date: string) {
    row.symbol == symbol && row.date == date
  }

  /** The rows with this symbol and date, in store order. */
  function Matching(rows: seq<HistoricalPrice>, symbol: string, date: string): (r: seq<HistoricalPrice>)
    ensures |r| <= |rows|
    ensures forall x :: x in r <==> x in rows && HasKey(x, symbol, date)
  {
    if rows == [] then []
    else (if HasKey(rows[0], symbol, date) then [rows[0]] else []) + Matching(rows[1..], symbol, date)
  }

  /** The row has this symbol and its date text compares at or after `from`. */
  predicate OnOrAfterKey(row: HistoricalPrice, symbol: string, from: string) {
    row.symbol == symbol && LexLessEq(from, row.date)
  }

  /** The rows with this symbol whose date text is at or after `from`, in store order. */
  function OnOrAfter(rows: seq<HistoricalPrice>, symbol: string, from: string): (r: seq<HistoricalPrice>)
    ensures |r| <= |rows|
    ensures forall x :: x in r <==> x in rows && OnOrAfterKey(x, symbol, from)
  {
    if rows == [] then []
    else
      (if OnOrAfterKey(rows[0], symbol, from) then [rows[0]] else [])
      + OnOrAfter(rows[1..], symbol, from)
  }

  /** Appending rows never hides an earlier match: the matches of the new rows follow the old ones. */
  lemma {:induction false} MatchingAppend(a: seq<HistoricalPrice>, b: seq<HistoricalPrice>, symbol: string, date: string)
    ensures Matching(a + b, symbol, date) == Matching(a, symbol, date) + Matching(b, symbol, date)
  {
    if a == [] {
      assert a + b == b;
    } else {
      assert (a + b)[0] == a[0] && (a + b)[1..] == a[1..] + b;
      MatchingAppend(a[1..], b, symbol, date);
    }
  }

  lemma {:induction false} OnOrAfterAppend(a: seq<HistoricalPrice>, b: seq<HistoricalPrice>, symbol: string, from: string)
    ensures OnOrAfter(a + b, symbol, from) == OnOrAfter(a, symbol, from) + OnOrAfter(b, symbol, from)
  {
    if a == [] {
      assert a + b == b;
    } else {
      assert (a + b)[0] == a[0] && (a + b)[1..] == a[1..] + b;
      OnOrAfterAppend(a[1..], b, symbol, from);
    }
  }

  /** Rows that all carry the key are all found, in order. */
  lemma {:induction false} MatchingAllKeyed(xs: seq<HistoricalPrice>, symbol: string, date: string)
    requires forall i | 0 <= i < |xs| :: HasKey(xs[i], symbol, date)
    ensures Matching(xs, symbol, date) == xs
  {
    if xs != [] {
      MatchingAllKeyed(xs[1..], symbol, date);
    }
  }

  /** After saving fetched rows that all carry the key, a lookup of that key finds what was there
    * before followed by exactly the fetched rows. */
  lemma SavedKeyIsFound(rows: seq<HistoricalPrice>, fetched: seq<HistoricalPrice>, symbol: string, date: string)
    requires forall i | 0 <= i < |fetched| :: HasKey(fetched[i], symbol, date)
    ensures Matching(rows + fetched, symbol, date) == Matching(rows, symbol, date) + fetched
  {
    MatchingAppend(rows, fetched, symbol, date);
    MatchingAllKeyed(fetched, symbol, date);
  }

  /** Nothing makes (symbol, date) unique: saving a new entity (one with no id yet) whose key is
    * already stored adds one more match, so the key then has at least two rows. */
  lemma SavingAgainDuplicates(rows: seq<HistoricalPrice>, row: HistoricalPrice)
    ensures |Matching(rows + [row], row.symbol, row.date)| == |Matching(rows, row.symbol, row.date)| + 1
    ensures Matching(rows, row.symbol, row.date) != [] ==> |Matching(rows + [row], row.symbol, row.date)| >= 2
  {
    MatchingAppend(rows, [row], row.symbol, row.date);
    assert Matching([row], row.symbol, row.date) == [row];
  }

  /** Fetching a range again over days already stored saves those days again, so the range
    * query then returns such a row at least twice. */
  lemma RefetchedRangeDuplicates(rows: seq<HistoricalPrice>, fetched: seq<HistoricalPrice>, row: HistoricalPrice, from: string)
    requires row in rows && row in fetched && LexLessEq(from, row.date)
    ensures multiset(OnOrAfter(rows + fetched, row.symbol, from))[row] >= 2
  {
    OnOrAfterAppend(rows, fetched, row.symbol, from);
    assert row in OnOrAfter(rows, row.symbol, from);
    assert row in OnOrAfter(fetched, row.symbol, from);
  }

  class PriceStore {
    var rows: seq<HistoricalPrice>

    constructor ()
      ensures rows == []
    {
      rows := [];
    }

    /** findBySymbolAndDate: every stored row with this symbol and date, and no other. */
    function FindBySymbolAndDate(symbol: string, date: string): (r: seq<HistoricalPrice>)
      reads this
      ensures forall x :: x in r <==> x in rows && HasKey(x, symbol, date)
    {
      Matching(rows, symbol, date)
    }

    /** existsBySymbolAndDate: some stored row has this symbol and date. */
    function ExistsBySymbolAndDate(symbol: string, date: string): (b: bool)
      reads this
      ensures b <==> FindBySymbolAndDate(symbol, date) != []
    {
      var found := FindBySymbolAndDate(symbol, date);
      assert found != [] ==> found[0] in rows && HasKey(found[0], symbol, date);
      exists x | x in rows :: HasKey(x, symbol, date)
    }

    /** findBySymbolAndDateGreaterThanEqual: the rows of this symbol whose date text compares
      * at or after `date`. */
    function FindBySymbolAndDateGreaterThanEqual(symbol: string, date: string): (r: seq<HistoricalPrice>)
      reads this
      ensures forall x :: x in r <==> x in rows && x.symbol == symbol && LexLessEq(date, x.date)
    {
      OnOrAfter(rows, symbol, date)
    }

    /** save of a new entity: stores one more row, whatever rows share its key. */
    method Save(entity: HistoricalPrice) returns (saved: HistoricalPrice)
      modifies this
      ensures rows == old(rows) + [entity] && saved == entity
      ensures ExistsBySymbolAndDate(entity.symbol, entity.date)
    {
      rows := rows + [entity];
      saved := entity;
      assert entity in FindBySymbolAndDate(entity.symbol, entity.date);
    }

    /** saveAll: stores every given row after the existing ones. */
    method SaveAll(entities: seq<HistoricalPrice>) returns (saved: seq<HistoricalPrice>)
      modifies this
      ensures rows == old(rows) + entities && saved == entities
      ensures forall x | x in entities :: x in FindBySymbolAndDate(x.symbol, x.date)
      ensures forall symbol, date ::
        (FindBySymbolAndDate(symbol, date) == old(FindBySymbolAndDate(symbol, date)) + Matching(entities, symbol, date))
    {
      ghost var before := rows;
      rows := rows + entities;
      saved := entities;
      forall symbol, date
        ensures FindBySymbolAndDate(symbol, date) == Matching(before, symbol, date) + Matching(entities, symbol, date)
      {
        MatchingAppend(before, entities, symbol, date);
      }
    }

    /** deleteAll: the store is emptied. */
    method DeleteAll()
      modifies this
      ensures rows == []
      ensures forall symbol, date :: !ExistsBySymbolAndDate(symbol, date)
    {
      rows := [];
    }
  }
}

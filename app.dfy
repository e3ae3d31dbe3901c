/** The page's state and the operations that change it: the global `quotes`
    array, the three storage slots beside it and the value of the category
    filter control. */
module QuoteApp {
  import opened JsText
  import opened JsValues
  import opened QuoteModel

  /** What the quote display shows after a pick. */
  datatype Display = EmptyPool | Shown(quote: Quote)

  /** The result of `JSON.parse` on an imported file's text. */
  datatype ImportFile = BadJson | Parsed(doc: JsValue)

  /** Which of the two alerts an import ends with. */
  datatype ImportOutcome = ImportSucceeded | ImportFailed

  /** The outcome of one `fetch` + `res.json()`: a failure (network or
      body), a body that is not an array, or an array of posts, given by
      their titles. */
  datatype ServerResponse = FetchFailed | NonArrayBody | Posts(titles: seq<string>)

  class QuotePage {
    /** The global `quotes` array. */
    var quotes: seq<Quote>
    /** localStorage `"quotes"`. */
    var storedQuotes: StoredQuotes
    /** localStorage `"selectedCategory"`. */
    var storedFilter: Option<string>
    /** sessionStorage `"lastQuoteIndex"`. */
    var lastQuoteIndex: Option<nat>
    /** The current value of the category filter control. */
    var filterValue: string

    /** The filter control always shows `"all"` or a category of `quotes`. */
    ghost predicate Valid()
      reads this
    {
      filterValue == All || filterValue in Categories(quotes)
    }

    /** A page about to run its script: `quotes` is `[]` (line 6), the
        storage slots hold what earlier visits left, and the filter control
        shows its `"all"` option. */
    constructor (stored: StoredQuotes, savedFilter: Option<string>, lastIndex: Option<nat>)
      ensures quotes == [] && storedQuotes == stored
      ensures storedFilter == savedFilter && lastQuoteIndex == lastIndex
      ensures filterValue == All && Valid()
    {
      quotes := [];
      storedQuotes := stored;
      storedFilter := savedFilter;
      lastQuoteIndex := lastIndex;
      filterValue := All;
    }

    /** `saveQuotes`: the slot now holds the whole collection. */
    method SaveQuotes()
      modifies this`storedQuotes
      ensures storedQuotes == Saved(quotes)
    {
      storedQuotes := Decoded(QuoteArray(quotes));
    }

    /** `loadQuotes`: a stored array is taken as it is; no entry, an empty
        string, text that does not parse or a value that is not an array
        gives the default collection, which is written back. */
    method LoadQuotes()
      modifies this`quotes, this`storedQuotes
      ensures quotes == Loaded(old(storedQuotes))
      ensures storedQuotes == Saved(quotes)
      ensures KeepsStored(old(storedQuotes)) ==> storedQuotes == old(storedQuotes)
    {
      if storedQuotes != NoEntry && storedQuotes != EmptyEntry {
        if storedQuotes.Decoded? && storedQuotes.doc.QuoteArray? {
          quotes := storedQuotes.doc.items;
        } else {
          quotes := DefaultQuotes();
          SaveQuotes();
        }
      } else {
        quotes := DefaultQuotes();
        SaveQuotes();
      }
    }

    /** `populateCategories`: lists the categories and sets the filter
        control to the saved filter, or to `"all"` when the saved filter is
        missing, empty or no longer a category. */
    method PopulateCategories() returns (cats: seq<string>)
      modifies this`filterValue
      ensures cats == Categories(quotes)
      ensures filterValue == ResolveSelection(storedFilter, cats)
      ensures Valid()
    {
      cats := Categories(quotes);
      var saved := if storedFilter.None? || storedFilter.value == [] then All else storedFilter.value;
      filterValue := if saved in cats || saved == All then saved else All;
    }

    /** `filterQuotes`: saves the filter value first, then shows a quote drawn
        from the pool with the draw `rand` of `Math.random()`, recording its
        position in `quotes`; an empty pool shows nothing and records
        nothing. */
    method FilterQuotes(rand: real) returns (shown: Display)
      requires 0.0 <= rand < 1.0
      modifies this`storedFilter, this`lastQuoteIndex
      ensures storedFilter == Some(filterValue)
      ensures lastQuoteIndex == LastIndexAfter(old(lastQuoteIndex), quotes, filterValue, rand)
      ensures shown == match Chosen(quotes, filterValue, rand)
        case None => EmptyPool
        case Some(i) => Shown(quotes[i])
    {
      storedFilter := Some(filterValue);
      var pool := Positions(quotes, filterValue);
      if |pool| == 0 {
        shown := EmptyPool;
        return;
      }
      var i := pool[PickIndex(rand, |pool|)];
      shown := Shown(quotes[i]);
      lastQuoteIndex := Some(i);
    }

    /** `showRandomQuote`: like `filterQuotes` on the whole collection, but
        leaves the saved filter alone. */
    method ShowRandomQuote(rand: real) returns (shown: Display)
      requires 0.0 <= rand < 1.0
      modifies this`lastQuoteIndex
      ensures quotes == [] ==> shown == EmptyPool && lastQuoteIndex == old(lastQuoteIndex)
      ensures quotes != [] ==>
        var i := PickIndex(rand, |quotes|);
        shown == Shown(quotes[i]) && lastQuoteIndex == Some(i)
    {
      if |quotes| == 0 {
        shown := EmptyPool;
        return;
      }
      var i := PickIndex(rand, |quotes|);
      shown := Shown(quotes[i]);
      lastQuoteIndex := Some(i);
    }

    /** The user picks an option of the filter control (the `"change"`
        listener runs `filterQuotes`). */
    method ChangeFilter(value: string, rand: real) returns (shown: Display)
      requires value == All || value in Categories(quotes)
      requires 0.0 <= rand < 1.0
      modifies this`filterValue, this`storedFilter, this`lastQuoteIndex
      ensures filterValue == value && storedFilter == Some(value) && Valid()
      ensures lastQuoteIndex == LastIndexAfter(old(lastQuoteIndex), quotes, value, rand)
      ensures shown == match Chosen(quotes, value, rand)
        case None => EmptyPool
        case Some(i) => Shown(quotes[i])
    {
      filterValue := value;
      shown := FilterQuotes(rand);
    }

    /** `addQuote`: trims both inputs and returns without any change when
        either is empty; otherwise appends the trimmed quote, saves, refreshes
        the categories and shows a quote. */
    method AddQuote(textInput: string, categoryInput: string, rand: real) returns (added: bool)
      requires 0.0 <= rand < 1.0
      modifies this`quotes, this`storedQuotes, this`filterValue, this`storedFilter, this`lastQuoteIndex
      ensures added <==> NewQuote(textInput, categoryInput).Some?
      ensures !added ==> unchanged(this)
      ensures added ==>
        && quotes == old(quotes) + [NewQuote(textInput, categoryInput).value]
        && storedQuotes == Saved(quotes)
        && filterValue == ResolveSelection(old(storedFilter), Categories(quotes))
        && storedFilter == Some(filterValue)
        && lastQuoteIndex == LastIndexAfter(old(lastQuoteIndex), quotes, filterValue, rand)
        && Valid()
    {
      var candidate := NewQuote(textInput, categoryInput);
      if candidate.None? {
        return false;
      }
      quotes := quotes + [candidate.value];
      SaveQuotes();
      ghost var saved := storedQuotes;
      var _ := PopulateCategories();
      assert Valid();
      var _ := FilterQuotes(rand);
      assert storedQuotes == saved;
      added := true;
    }

    /** The `forEach` of an import: visits the elements in order and pushes
        each one with string `text` and `category`; a `null` or `undefined`
        element throws at `q.text`, leaving the quotes pushed before it. */
    method PushImported(items: seq<JsValue>) returns (threw: bool)
      modifies this`quotes
      ensures quotes == old(quotes) + Imported(items)
      ensures threw <==> HasNullish(items)
    {
      var i := 0;
      while i < |items|
        invariant 0 <= i <= |items|
        invariant !HasNullish(items[..i])
        invariant quotes == old(quotes) + Imported(items[..i])
      {
        var q := items[i];
        if Nullish(q) {
          ImportStopsAt(items, i);
          return true;
        }
        match RecordOf(q) {
          case Some(r) => quotes := quotes + [r];
          case None =>
        }
        ImportedSnoc(items[..i], q);
        assert items[..i + 1] == items[..i] + [q];
        i := i + 1;
      }
      assert items[..i] == items;
      threw := false;
    }

    /** The `reader.onload` body of `importFromJsonFile`. A file that does
        not parse to an array changes nothing. Otherwise the records are
        pushed; when an element throws, the quotes pushed so far stay in
        memory but the save, the refresh and the pick are skipped. */
    method ImportQuotes(file: ImportFile, rand: real) returns (outcome: ImportOutcome)
      requires 0.0 <= rand < 1.0
      modifies this`quotes, this`storedQuotes, this`filterValue, this`storedFilter, this`lastQuoteIndex
      ensures !(file.Parsed? && file.doc.JsArray?) ==> outcome == ImportFailed && unchanged(this)
      ensures file.Parsed? && file.doc.JsArray? ==>
        && quotes == old(quotes) + Imported(file.doc.items)
        && (outcome == ImportSucceeded <==> !HasNullish(file.doc.items))
      ensures outcome == ImportFailed ==>
        && storedQuotes == old(storedQuotes) && filterValue == old(filterValue)
        && storedFilter == old(storedFilter) && lastQuoteIndex == old(lastQuoteIndex)
      ensures outcome == ImportSucceeded ==>
        && storedQuotes == Saved(quotes)
        && filterValue == ResolveSelection(old(storedFilter), Categories(quotes))
        && storedFilter == Some(filterValue)
        && lastQuoteIndex == LastIndexAfter(old(lastQuoteIndex), quotes, filterValue, rand)
      ensures old(Valid()) ==> Valid()
    {
      if !(file.Parsed? && file.doc.JsArray?) {
        return ImportFailed;
      }
      var threw := PushImported(file.doc.items);
      if threw {
        AppendKeepsSelection(old(quotes), Imported(file.doc.items), filterValue);
        return ImportFailed;
      }
      SaveQuotes();
      var _ := PopulateCategories();
      var _ := FilterQuotes(rand);
      outcome := ImportSucceeded;
    }

    /** The merge part of `syncWithServer`: a failed fetch or a body that is
        not an array changes nothing; otherwise the first five posts are
        appended as `"Server"` quotes, without comparing them with the quotes
        already there, the collection is saved and the categories
        refreshed. */
    method SyncWithServer(response: ServerResponse)
      modifies this`quotes, this`storedQuotes, this`filterValue
      ensures !response.Posts? ==> unchanged(this)
      ensures response.Posts? ==>
        && quotes == old(quotes) + ServerQuotes(response.titles)
        && storedQuotes == Saved(quotes)
        && filterValue == ResolveSelection(storedFilter, Categories(quotes))
        && Valid()
    {
      if response.Posts? {
        var newQuotes := ServerQuotes(response.titles);
        quotes := quotes + newQuotes;
        SaveQuotes();
        var _ := PopulateCategories();
      }
    }

    /** The script's start-up sequence: load, list the categories, show a
        quote. */
    method Start(rand: real) returns (shown: Display)
      requires 0.0 <= rand < 1.0
      modifies this
      ensures quotes == Loaded(old(storedQuotes))
      ensures storedQuotes == Saved(quotes)
      ensures filterValue == ResolveSelection(old(storedFilter), Categories(quotes))
      ensures storedFilter == Some(filterValue)
      ensures lastQuoteIndex == LastIndexAfter(old(lastQuoteIndex), quotes, filterValue, rand)
      ensures shown == match Chosen(quotes, filterValue, rand)
        case None => EmptyPool
        case Some(i) => Shown(quotes[i])
      ensures Valid()
    {
      LoadQuotes();
      ghost var saved := storedQuotes;
      var _ := PopulateCategories();
      assert Valid();
      shown := FilterQuotes(rand);
      assert storedQuotes == saved;
    }
  }
}

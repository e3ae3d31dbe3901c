/** The quote collection and the pure computations the widget performs on it:
    the default collection, the decoded forms of the stored collection, the
    category list and the fallback of the saved filter, the pool of quotes a
    filter selects and the random pick from it, and the records an import or
    a server sync appends. */
module QuoteModel {
  import opened JsText
  import opened JsValues

  datatype Option<T> = None | Some(value: T)

  /** One quote: `{ text, category }`. */
  datatype Quote = Quote(text: string, category: string)

  /** The filter value that selects every quote. */
  const All: string := "all"

  /** The category given to every quote taken from the server. */
  const ServerCategory: string := "Server"

  /** How many server records one sync takes. */
  const SyncBatch: nat := 5

  // ---------------------------------------------------------------------
  // Default collection and stored collection

  /** The five quotes a first run starts from (`getDefaultQuotes`). */
  function DefaultQuotes(): (r: seq<Quote>)
    ensures |r| == 5
    ensures forall i :: 0 <= i < |r| ==> r[i].text != [] && r[i].category != []
  {
    [ Quote("The best way to predict the future is to create it.", "Motivation"),
      Quote("Life is what happens when you're busy making other plans.", "Life"),
      Quote("Be yourself; everyone else is already taken.", "Inspiration"),
      Quote("In the middle of difficulty lies opportunity.", "Motivation"),
      Quote("To be, or not to be, that is the question.", "Philosophy") ]
  }

  /** What `JSON.parse` makes of a non-empty stored string: an array of
      quotes, or some other value. */
  datatype StoredDoc = NotArray | QuoteArray(items: seq<Quote>)

  /** The localStorage slot `"quotes"`, already decoded: no entry (`getItem`
      gives `null`), the empty string (falsy), text `JSON.parse` rejects, or a
      parsed document. */
  datatype StoredQuotes = NoEntry | EmptyEntry | Unparsable | Decoded(doc: StoredDoc)

  /** Whether `loadQuotes` keeps the slot as it is: every slot but the four
      it overwrites with the defaults (no entry, the empty string, text that
      does not parse, a value that is not an array). */
  predicate KeepsStored(stored: StoredQuotes)
    ensures KeepsStored(stored) <==> stored !in {NoEntry, EmptyEntry, Unparsable, Decoded(NotArray)}
  {
    stored.Decoded? && stored.doc.QuoteArray?
  }

  /** The slot's content after `saveQuotes` wrote `qs`: a slot `loadQuotes`
      keeps. */
  function Saved(qs: seq<Quote>): (r: StoredQuotes)
    ensures KeepsStored(r)
  {
    Decoded(QuoteArray(qs))
  }

  /** The collection `loadQuotes` ends with: a stored array as it is, the
      default collection in every other case. Saving it reproduces the slot
      exactly when the slot is kept. */
  function Loaded(stored: StoredQuotes): (r: seq<Quote>)
    ensures KeepsStored(stored) <==> Saved(r) == stored
    ensures !KeepsStored(stored) ==> r == DefaultQuotes()
  {
    if stored.Decoded? && stored.doc.QuoteArray? then stored.doc.items else DefaultQuotes()
  }

  /** Saving and loading again gives back the collection, the empty one
      included (`"[]"` is a non-empty, truthy string). */
  lemma LoadAfterSave(qs: seq<Quote>)
    ensures KeepsStored(Saved(qs)) && Loaded(Saved(qs)) == qs
  {
  }

  // ---------------------------------------------------------------------
  // Category list and the saved filter

  predicate HasCategory(qs: seq<Quote>, c: string) {
    exists q :: q in qs && q.category == c
  }

  /** `[...new Set(quotes.map(q => q.category))].sort()`: every category of
      `qs` once, in ascending order, and nothing else. */
  function Categories(qs: seq<Quote>): (cats: seq<string>)
    ensures StrictlySorted(cats)
    ensures forall c :: c in cats <==> HasCategory(qs, c)
  {
    var column := seq(|qs|, i requires 0 <= i < |qs| => qs[i].category);
    var distinct := Distinct(column);
    SortDistinctIsStrict(distinct);
    var cats := SortStrings(distinct);
    assert forall c :: c in cats <==> c in multiset(distinct);
    assert forall c :: c in column ==> HasCategory(qs, c);
    assert forall c :: HasCategory(qs, c) ==> c in column by {
      forall c | HasCategory(qs, c) ensures c in column {
        var q :| q in qs && q.category == c;
        var i :| 0 <= i < |qs| && qs[i] == q;
        assert column[i] == c;
      }
    }
    cats
  }

  /** The category list is the only strictly ascending list of exactly the
      categories of `qs`. */
  lemma CategoriesExactly(qs: seq<Quote>, cats: seq<string>)
    requires StrictlySorted(cats)
    requires forall c :: c in cats <==> HasCategory(qs, c)
    ensures cats == Categories(qs)
  {
    StrictlySortedUnique(cats, Categories(qs));
  }

  /** Appending quotes keeps every category and adds those of the new
      quotes. */
  lemma CategoriesAppend(qs: seq<Quote>, more: seq<Quote>, c: string)
    ensures c in Categories(qs + more) <==> c in Categories(qs) || c in Categories(more)
  {
    if HasCategory(qs + more, c) {
      var q :| q in qs + more && q.category == c;
      assert q in qs || q in more;
    }
    if HasCategory(qs, c) {
      var q :| q in qs && q.category == c;
      assert q in qs + more;
    }
    if HasCategory(more, c) {
      var q :| q in more && q.category == c;
      assert q in qs + more;
    }
  }

  /** The filter `populateCategories` selects: the saved value
      (`localStorage.getItem("selectedCategory") || "all"`) if it is `"all"`
      or a listed category, and `"all"` otherwise. */
  function ResolveSelection(saved: Option<string>, cats: seq<string>): (r: string)
    ensures r == All || r in cats
    ensures r != All ==> saved == Some(r) && r != []
    ensures saved.Some? && saved.value != [] && (saved.value == All || saved.value in cats)
      ==> r == saved.value
  {
    var s := if saved.None? || saved.value == [] then All else saved.value;
    if s in cats || s == All then s else All
  }

  /** With no quotes there are no categories, and every saved value resolves
      to `"all"`. */
  lemma EmptyCollectionSelectsAll(saved: Option<string>)
    ensures Categories([]) == []
    ensures ResolveSelection(saved, Categories([])) == All
  {
    var cats := Categories([]);
    assert multiset(cats) == multiset{};
    assert |cats| == |multiset(cats)|;
  }

  /** A saved filter whose category is gone falls back to `"all"`. */
  lemma VanishedCategoryFallsBack(qs: seq<Quote>, c: string)
    requires forall i :: 0 <= i < |qs| ==> qs[i].category != c
    ensures ResolveSelection(Some(c), Categories(qs)) == All
  {
    assert forall q :: q in qs ==> q.category != c;
  }

  // ---------------------------------------------------------------------
  // The pool a filter selects and the random pick

  /** Whether the filter value `sel` admits `q`. */
  predicate Matches(sel: string, q: Quote) {
    sel == All || q.category == sel
  }

  /** Positions in `qs` of the quotes the filter `sel` admits, ascending.
      Every element of the page's `quotes` array is a distinct object, so a
      pool element is identified by its position. */
  function Positions(qs: seq<Quote>, sel: string): (ps: seq<nat>)
    ensures forall k :: 0 <= k < |ps| ==> ps[k] < |qs| && Matches(sel, qs[ps[k]])
    ensures forall k, l :: 0 <= k < l < |ps| ==> ps[k] < ps[l]
    ensures forall i :: 0 <= i < |qs| && Matches(sel, qs[i]) ==> i in ps
    ensures |ps| <= |qs|
  {
    if qs == [] then []
    else
      var n := |qs| - 1;
      var init := Positions(qs[..n], sel);
      if Matches(sel, qs[n]) then init + [n] else init
  }

  /** The pool `filterQuotes` draws from: `quotes` itself for `"all"`,
      `quotes.filter(q => q.category === selected)` otherwise. */
  function Pool(qs: seq<Quote>, sel: string): (r: seq<Quote>)
    ensures |r| <= |qs|
    ensures forall q :: q in r ==> q in qs && Matches(sel, q)
  {
    var ps := Positions(qs, sel);
    seq(|ps|, k requires 0 <= k < |ps| => qs[ps[k]])
  }

  /** The reference filter: the quotes of category `c`, in their order. */
  function FilterCategory(qs: seq<Quote>, c: string): seq<Quote> {
    if qs == [] then []
    else FilterCategory(qs[..|qs| - 1], c) + (if qs[|qs| - 1].category == c then [qs[|qs| - 1]] else [])
  }

  /** The pool of `qs` is the pool of all but its last quote, followed by
      the last quote when the filter admits it. */
  lemma PoolSnoc(qs: seq<Quote>, sel: string)
    requires qs != []
    ensures Pool(qs, sel) == Pool(qs[..|qs| - 1], sel)
      + (if Matches(sel, qs[|qs| - 1]) then [qs[|qs| - 1]] else [])
  {
    var n := |qs| - 1;
    var init := Positions(qs[..n], sel);
    var poolInit := Pool(qs[..n], sel);
    var pool := Pool(qs, sel);
    assert |pool| == |init| + (if Matches(sel, qs[n]) then 1 else 0);
    forall k | 0 <= k < |init| ensures pool[k] == poolInit[k] {
      assert qs[..n][init[k]] == qs[init[k]];
    }
  }

  /** The pool for `"all"` is the whole collection. */
  lemma {:induction false} PoolAll(qs: seq<Quote>)
    ensures Pool(qs, All) == qs
  {
    if qs != [] {
      var n := |qs| - 1;
      PoolAll(qs[..n]);
      PoolSnoc(qs, All);
      assert qs == qs[..n] + [qs[n]];
    }
  }

  /** The pool for any other value is the order-preserving filter on that
      category. */
  lemma {:induction false} PoolIsFilter(qs: seq<Quote>, sel: string)
    requires sel != All
    ensures Pool(qs, sel) == FilterCategory(qs, sel)
  {
    if qs != [] {
      var n := |qs| - 1;
      PoolIsFilter(qs[..n], sel);
      PoolSnoc(qs, sel);
    }
  }

  lemma ScaledBelow(rand: real, n: nat)
    requires 0.0 <= rand < 1.0 && n > 0
    ensures 0.0 <= rand * n as real < n as real
  {
    assert rand * n as real < 1.0 * n as real;
  }

  /** `Math.floor(Math.random() * n)` for a draw `rand` in `[0, 1)`: an index
      of a pool of `n` quotes. */
  function PickIndex(rand: real, n: nat): (k: nat)
    requires 0.0 <= rand < 1.0 && n > 0
    ensures k < n
  {
    ScaledBelow(rand, n);
    (rand * n as real).Floor
  }

  /** Scaling by a positive `nr` keeps the order: `a <= rand * nr` exactly
      when `a / nr <= rand`. */
  lemma DivBound(a: real, rand: real, nr: real)
    requires nr > 0.0
    ensures a <= rand * nr <==> a / nr <= rand
  {
    var q := a / nr;
    assert a == q * nr;
    if q <= rand {
      assert q * nr <= rand * nr;
    } else {
      assert rand * nr < q * nr;
    }
  }

  /** Each index of the pool is picked for exactly the draws in an interval
      of width `1/n`: a uniform draw picks every index with equal chance. */
  lemma PickIndexUniform(rand: real, n: nat, k: nat)
    requires 0.0 <= rand < 1.0 && n > 0 && k < n
    ensures PickIndex(rand, n) == k <==> k as real / n as real <= rand < (k + 1) as real / n as real
  {
    var nr := n as real;
    var x := rand * nr;
    assert PickIndex(rand, n) == k <==> k as real <= x < (k + 1) as real;
    DivBound(k as real, rand, nr);
    DivBound((k + 1) as real, rand, nr);
  }

  /** The position `filterQuotes` records as `lastQuoteIndex` for the draw
      `rand`, or `None` when the pool is empty and nothing is picked. */
  function Chosen(qs: seq<Quote>, sel: string, rand: real): (r: Option<nat>)
    requires 0.0 <= rand < 1.0
    ensures r.Some? ==> r.value < |qs| && Matches(sel, qs[r.value])
  {
    var ps := Positions(qs, sel);
    if ps == [] then None else Some(ps[PickIndex(rand, |ps|)])
  }

  /** The session slot `"lastQuoteIndex"` after `filterQuotes`: the chosen
      position, or the previous content when the pool is empty. */
  function LastIndexAfter(prev: Option<nat>, qs: seq<Quote>, sel: string, rand: real): (r: Option<nat>)
    requires 0.0 <= rand < 1.0
    ensures (forall i :: 0 <= i < |qs| ==> !Matches(sel, qs[i])) ==> r == prev
    ensures (exists i :: 0 <= i < |qs| && Matches(sel, qs[i])) ==>
      r.Some? && r.value < |qs| && Matches(sel, qs[r.value])
  {
    if Chosen(qs, sel, rand).None? then prev else Chosen(qs, sel, rand)
  }

  /** For `"all"` every position is in the pool, in order. */
  lemma {:induction false} PositionsAll(qs: seq<Quote>)
    ensures |Positions(qs, All)| == |qs|
    ensures forall k :: 0 <= k < |qs| ==> Positions(qs, All)[k] == k
  {
    if qs != [] {
      PositionsAll(qs[..|qs| - 1]);
    }
  }

  /** `showRandomQuote` draws from the whole collection exactly as
      `filterQuotes` does under `"all"`: the drawn index is the recorded
      position. */
  lemma ShowRandomIsFilterAll(qs: seq<Quote>, rand: real)
    requires 0.0 <= rand < 1.0
    requires qs != []
    ensures Chosen(qs, All, rand) == Some(PickIndex(rand, |qs|))
  {
    PositionsAll(qs);
  }

  /** Nothing is picked exactly when no quote matches the filter; otherwise
      the recorded position is a valid index of a matching quote, and the
      quote there is the pool element the draw selects. */
  lemma ChosenSpec(qs: seq<Quote>, sel: string, rand: real)
    requires 0.0 <= rand < 1.0
    ensures Chosen(qs, sel, rand).None? <==> forall i :: 0 <= i < |qs| ==> !Matches(sel, qs[i])
    ensures Chosen(qs, sel, rand).None? <==> Pool(qs, sel) == []
    ensures match Chosen(qs, sel, rand)
      case Some(i) =>
        var pool := Pool(qs, sel);
        && i < |qs| && Matches(sel, qs[i])
        && pool != [] && qs[i] == pool[PickIndex(rand, |pool|)]
      case None => true
  {
    var ps := Positions(qs, sel);
    if ps != [] {
      assert Matches(sel, qs[ps[0]]);
    }
  }

  /** The `k`-th quote of the pool is recorded exactly when the draw picks
      pool index `k`. */
  lemma ChosenAt(qs: seq<Quote>, sel: string, rand: real, k: nat)
    requires 0.0 <= rand < 1.0
    requires k < |Positions(qs, sel)|
    ensures Chosen(qs, sel, rand) == Some(Positions(qs, sel)[k])
      <==> PickIndex(rand, |Positions(qs, sel)|) == k
  {
    var ps := Positions(qs, sel);
    var j := PickIndex(rand, |ps|);
    assert j < k ==> ps[j] < ps[k];
    assert k < j ==> ps[k] < ps[j];
  }

  /** The `k`-th quote of the pool is recorded for the draws in an interval
      of width `1/|pool|`: every quote of the pool is equally likely. */
  lemma ChosenUniform(qs: seq<Quote>, sel: string, rand: real, k: nat)
    requires 0.0 <= rand < 1.0
    requires k < |Positions(qs, sel)|
    ensures var n := |Positions(qs, sel)| as real;
      (Chosen(qs, sel, rand) == Some(Positions(qs, sel)[k]))
        <==> (k as real / n <= rand < (k + 1) as real / n)
  {
    ChosenAt(qs, sel, rand, k);
    PickIndexUniform(rand, |Positions(qs, sel)|, k);
  }

  /** The first position holding a quote equal to `q`. */
  function FirstIndexOf(qs: seq<Quote>, q: Quote): (r: nat)
    requires q in qs
    ensures r < |qs| && qs[r] == q
    ensures forall j :: 0 <= j < r ==> qs[j] != q
  {
    if qs[0] == q then 0 else FirstIndexOf(qs[1..], q) + 1
  }

  /** The recorded position is never before the first quote equal to the
      picked one, and is that first position when no two quotes are equal. */
  lemma ChosenVersusFirstEqual(qs: seq<Quote>, sel: string, rand: real)
    requires 0.0 <= rand < 1.0
    requires Chosen(qs, sel, rand).Some?
    ensures var i := Chosen(qs, sel, rand).value;
      i < |qs| && FirstIndexOf(qs, qs[i]) <= i
    ensures (forall a, b :: 0 <= a < b < |qs| ==> qs[a] != qs[b])
      ==> Chosen(qs, sel, rand).value == FirstIndexOf(qs, qs[Chosen(qs, sel, rand).value])
  {
    ChosenSpec(qs, sel, rand);
  }

  // ---------------------------------------------------------------------
  // Adding a quote

  /** The quote `addQuote` appends for the two input values, or `None` when
      it returns without adding: the trimmed inputs, rejected exactly when
      either is empty after trimming, that is, all whitespace. */
  function NewQuote(textInput: string, categoryInput: string): (r: Option<Quote>)
    ensures r.None? <==> AllWhitespace(textInput) || AllWhitespace(categoryInput)
    ensures r.Some? ==> r.value == Quote(Trim(textInput), Trim(categoryInput))
    ensures r.Some? ==> r.value.text != [] && r.value.category != []
  {
    TrimEmptyIff(textInput);
    TrimEmptyIff(categoryInput);
    var text := Trim(textInput);
    var category := Trim(categoryInput);
    if text == [] || category == [] then None else Some(Quote(text, category))
  }

  // ---------------------------------------------------------------------
  // Importing a file

  /** The quote an imported element contributes: one whose `text` and
      `category` properties are both strings; nothing for any other element
      that can be read. */
  function RecordOf(v: JsValue): (r: Option<Quote>)
    requires !Nullish(v)
    ensures r.Some? <==>
      && v.JsObject?
      && "text" in v.fields && v.fields["text"].JsString?
      && "category" in v.fields && v.fields["category"].JsString?
    ensures r.Some? ==>
      v.fields["text"] == JsString(r.value.text) && v.fields["category"] == JsString(r.value.category)
  {
    match (Prop(v, "text"), Prop(v, "category"))
    case (JsString(t), JsString(c)) => Some(Quote(t, c))
    case _ => None
  }

  predicate HasNullish(items: seq<JsValue>) {
    exists i :: 0 <= i < |items| && Nullish(items[i])
  }

  /** The quotes the `forEach` of the import pushes before it stops: the
      records of the elements up to the first `null`, whose `q.text` throws
      (all elements when there is none). */
  function Imported(items: seq<JsValue>): (r: seq<Quote>)
    ensures |r| <= |items|
  {
    if items == [] || Nullish(items[0]) then []
    else
      match RecordOf(items[0])
      case Some(q) => [q] + Imported(items[1..])
      case None => Imported(items[1..])
  }

  /** Importing is element-wise: the quotes pushed for `a + b` are those for
      `a` followed by those for `b`, when `a` holds no nullish element. */
  lemma {:induction false} ImportedAppend(a: seq<JsValue>, b: seq<JsValue>)
    requires !HasNullish(a)
    ensures Imported(a + b) == Imported(a) + Imported(b)
  {
    if a != [] {
      assert !Nullish(a[0]);
      assert (a + b)[0] == a[0] && (a + b)[1..] == a[1..] + b;
      assert !HasNullish(a[1..]) by {
        forall i | 0 <= i < |a[1..]| ensures !Nullish(a[1..][i]) {
          assert a[1..][i] == a[i + 1];
        }
      }
      ImportedAppend(a[1..], b);
    } else {
      assert a + b == b;
    }
  }

  /** One element at a time: the loop body's effect. */
  lemma ImportedSnoc(a: seq<JsValue>, x: JsValue)
    requires !HasNullish(a) && !Nullish(x)
    ensures Imported(a + [x]) == Imported(a) + (match RecordOf(x) case Some(q) => [q] case None => [])
  {
    ImportedAppend(a, [x]);
  }

  /** A nullish element ends the import: what was pushed before it is all
      that is pushed. */
  lemma ImportStopsAt(items: seq<JsValue>, i: nat)
    requires i < |items| && !HasNullish(items[..i]) && Nullish(items[i])
    ensures Imported(items) == Imported(items[..i])
  {
    assert items == items[..i] + items[i..];
    ImportedAppend(items[..i], items[i..]);
  }

  /** Appending quotes keeps a filter value that is `"all"` or a category
      a category, so the filter control stays valid. */
  lemma AppendKeepsSelection(qs: seq<Quote>, more: seq<Quote>, sel: string)
    ensures sel == All || sel in Categories(qs) ==> sel == All || sel in Categories(qs + more)
  {
    CategoriesAppend(qs, more, sel);
  }

  /** Every imported quote comes from an element with string `text` and
      `category` ahead of the first nullish element. */
  lemma {:induction false} ImportedSources(items: seq<JsValue>, q: Quote)
    requires q in Imported(items)
    ensures exists i ::
      && 0 <= i < |items| && !Nullish(items[i]) && RecordOf(items[i]) == Some(q)
      && (forall j :: 0 <= j < i ==> !Nullish(items[j]))
  {
    var tail := items[1..];
    if RecordOf(items[0]) != Some(q) {
      assert q in Imported(tail);
      ImportedSources(tail, q);
      var i :| 0 <= i < |tail| && !Nullish(tail[i]) && RecordOf(tail[i]) == Some(q)
        && forall j :: 0 <= j < i ==> !Nullish(tail[j]);
      assert items[i + 1] == tail[i];
      assert forall j :: 0 <= j < i + 1 ==> !Nullish(items[j]) by {
        forall j | 0 <= j < i + 1 ensures !Nullish(items[j]) {
          if j > 0 { assert items[j] == tail[j - 1]; }
        }
      }
    }
  }

  /** Without a nullish element, every element with string `text` and
      `category` contributes its quote. */
  lemma {:induction false} ImportedComplete(items: seq<JsValue>, i: nat)
    requires !HasNullish(items) && i < |items| && RecordOf(items[i]).Some?
    ensures RecordOf(items[i]).value in Imported(items)
  {
    if i > 0 {
      var tail := items[1..];
      assert tail[i - 1] == items[i];
      assert !HasNullish(tail) by {
        forall j | 0 <= j < |tail| ensures !Nullish(tail[j]) {
          assert tail[j] == items[j + 1];
        }
      }
      ImportedComplete(tail, i - 1);
    }
  }

  /** The import of `[{"text":"A","category":"B"},{"text":123,"category":"C"}]`
      accepts the first record and drops the second. */
  lemma ImportExample()
    ensures Imported([
        JsObject(map["text" := JsString("A"), "category" := JsString("B")]),
        JsObject(map["text" := JsNumber(123), "category" := JsString("C")])])
      == [Quote("A", "B")]
  {
    var first := JsObject(map["text" := JsString("A"), "category" := JsString("B")]);
    var second := JsObject(map["text" := JsNumber(123), "category" := JsString("C")]);
    assert RecordOf(first) == Some(Quote("A", "B"));
    assert RecordOf(second) == None;
    assert [first, second][1..] == [second];
  }

  // ---------------------------------------------------------------------
  // Server sync

  /** `posts.map(post => ({ text: post.title, category: "Server" }))`. */
  function Tagged(titles: seq<string>): (r: seq<Quote>)
    ensures |r| == |titles|
    ensures forall i :: 0 <= i < |titles| ==> r[i] == Quote(titles[i], ServerCategory)
  {
    if titles == [] then [] else [Quote(titles[0], ServerCategory)] + Tagged(titles[1..])
  }

  /** The quotes one sync appends for the titles of the response array:
      `serverData.slice(0, 5)` turned into server quotes. */
  function ServerQuotes(titles: seq<string>): (r: seq<Quote>)
    ensures |r| == if |titles| < SyncBatch then |titles| else SyncBatch
    ensures forall i :: 0 <= i < |r| ==> r[i] == Quote(titles[i], ServerCategory)
  {
    Tagged(if |titles| < SyncBatch then titles else titles[..SyncBatch])
  }

  /** Only the first five records matter: the titles after the fifth change
      nothing. */
  lemma ServerQuotesIgnoresRest(titles: seq<string>, rest: seq<string>)
    requires |titles| >= SyncBatch
    ensures ServerQuotes(titles + rest) == ServerQuotes(titles)
  {
    assert (titles + rest)[..SyncBatch] == titles[..SyncBatch];
  }

  /** After a sync with at least one record, `"Server"` is a category. */
  lemma SyncedCategory(qs: seq<Quote>, titles: seq<string>)
    requires titles != []
    ensures ServerCategory in Categories(qs + ServerQuotes(titles))
  {
    var added := ServerQuotes(titles);
    assert added[0] in qs + added;
  }
}

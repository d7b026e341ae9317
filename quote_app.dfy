/** The global state of dom-manipulation/script.js (`quotes`, `currentCategory`,
    `currentQuoteIndex`, `sessionQuoteViews` and `syncState.hasLocalChanges`) and the
    event handlers that change it. Rendering, storage writes and timers are not modelled;
    the values they would need are parameters. */
module QuoteApp {
  import opened Collections
  import opened JsonValues
  import opened Quotes

  /** What `showRandomQuote` puts on the page: the chosen quote, or the
      "No quotes found in this category" placeholder. */
  datatype Display = Placeholder | Shown(quote: Quote)

  class App {
    var quotes: seq<Quote>
    var currentCategory: string
    var currentQuoteIndex: int
    var sessionQuoteViews: nat
    var hasLocalChanges: bool

    /** The state once the collection has been loaded: `loaded` is what
        `loadQuotesFromStorage` produced. */
    constructor (loaded: seq<Quote>)
      ensures quotes == loaded && currentCategory == "all" && currentQuoteIndex == -1
      ensures sessionQuoteViews == 0 && !hasLocalChanges
    {
      quotes := loaded;
      currentCategory := "all";
      currentQuoteIndex := -1;
      sessionQuoteViews := 0;
      hasLocalChanges := false;
    }

    /** `addQuote`: on valid input the new record goes to the front of the collection
        and the collection is marked as locally changed; otherwise nothing changes. */
    method AddQuote(textField: string, categoryField: string, authorField: string, id: Json, now: string)
      returns (r: Result<Quote, AddError>)
      modifies this
      ensures r == NewQuote(textField, categoryField, authorField, id, now)
      ensures r.Success? ==> quotes == [r.value] + old(quotes) && hasLocalChanges
      ensures r.Failure? ==> quotes == old(quotes) && hasLocalChanges == old(hasLocalChanges)
      ensures currentCategory == old(currentCategory) && currentQuoteIndex == old(currentQuoteIndex)
      ensures sessionQuoteViews == old(sessionQuoteViews)
    {
      r := NewQuote(textField, categoryField, authorField, id, now);
      if r.Success? {
        quotes := [r.value] + quotes;
        hasLocalChanges := true;
      }
    }

    /** `importFromJsonFile` once the file has been read: a successful import appends the
        new records after the existing ones; any failure leaves the collection as it was. */
    method ImportFromJsonFile(file: Option<ImportFile>, idOf: nat -> real, dateOf: nat -> string)
      returns (r: Result<ImportReport, ImportError>)
      modifies this
      ensures r == ImportFromFile(file, idOf, dateOf)
      ensures r.Success? ==> quotes == old(quotes) + r.value.added
      ensures r.Failure? ==> quotes == old(quotes)
      ensures currentCategory == old(currentCategory) && currentQuoteIndex == old(currentQuoteIndex)
      ensures sessionQuoteViews == old(sessionQuoteViews) && hasLocalChanges == old(hasLocalChanges)
    {
      r := ImportFromFile(file, idOf, dateOf);
      if r.Success? {
        quotes := quotes + r.value.added;
      }
    }

    /** `showRandomQuote`: pick from the quotes of the current category an index other
        than the previous one (when there is a choice), remember it and count the view. */
    method ShowRandomQuote(draws: seq<real>) returns (d: Display)
      requires DrawsSuffice(draws, |FilterByCategory(quotes, currentCategory)|, currentQuoteIndex)
      modifies this
      ensures quotes == old(quotes) && currentCategory == old(currentCategory)
      ensures hasLocalChanges == old(hasLocalChanges)
      ensures var pool := FilterByCategory(old(quotes), old(currentCategory));
        && (pool == [] ==> d == Placeholder && currentQuoteIndex == old(currentQuoteIndex)
                           && sessionQuoteViews == old(sessionQuoteViews))
        && (pool != [] ==>
              && 0 <= currentQuoteIndex < |pool|
              && (|pool| > 1 ==> currentQuoteIndex != old(currentQuoteIndex))
              && d == Shown(pool[currentQuoteIndex])
              && sessionQuoteViews == old(sessionQuoteViews) + 1)
    {
      var pool := FilterByCategory(quotes, currentCategory);
      if pool == [] {
        d := Placeholder;
        return;
      }
      var index, _ := PickIndex(|pool|, currentQuoteIndex, draws);
      currentQuoteIndex := index;
      sessionQuoteViews := sessionQuoteViews + 1;
      d := Shown(pool[index]);
    }

    /** `setActiveCategory`: select a category and show a quote from it. */
    method SetActiveCategory(category: string, draws: seq<real>) returns (d: Display)
      requires DrawsSuffice(draws, |FilterByCategory(quotes, category)|, currentQuoteIndex)
      modifies this
      ensures quotes == old(quotes) && currentCategory == category
      ensures hasLocalChanges == old(hasLocalChanges)
      ensures var pool := FilterByCategory(old(quotes), category);
        && (pool == [] ==> d == Placeholder && currentQuoteIndex == old(currentQuoteIndex)
                           && sessionQuoteViews == old(sessionQuoteViews))
        && (pool != [] ==>
              && 0 <= currentQuoteIndex < |pool|
              && (|pool| > 1 ==> currentQuoteIndex != old(currentQuoteIndex))
              && d == Shown(pool[currentQuoteIndex])
              && sessionQuoteViews == old(sessionQuoteViews) + 1)
    {
      currentCategory := category;
      d := ShowRandomQuote(draws);
    }

    /** `clearCustomQuotes` with the confirmation given: fails without change when no quote
        is custom; otherwise keeps the other quotes in order, selects "all" and shows a
        quote from what is left. */
    method ClearCustomQuotes(draws: seq<real>) returns (r: Result<Display, ClearError>)
      requires ClearCustom(quotes).Success? ==>
        DrawsSuffice(draws, |ClearCustom(quotes).value|, currentQuoteIndex)
      modifies this
      ensures ClearCustom(old(quotes)).Failure? ==>
        r == Failure(NoCustomQuotes) && quotes == old(quotes) && currentCategory == old(currentCategory)
        && currentQuoteIndex == old(currentQuoteIndex) && sessionQuoteViews == old(sessionQuoteViews)
      ensures ClearCustom(old(quotes)).Success? ==>
        && quotes == ClearCustom(old(quotes)).value
        && currentCategory == "all"
        && r.Success?
        && (quotes == [] ==> r.value == Placeholder && currentQuoteIndex == old(currentQuoteIndex)
                             && sessionQuoteViews == old(sessionQuoteViews))
        && (quotes != [] ==>
              && 0 <= currentQuoteIndex < |quotes|
              && (|quotes| > 1 ==> currentQuoteIndex != old(currentQuoteIndex))
              && r.value == Shown(quotes[currentQuoteIndex])
              && sessionQuoteViews == old(sessionQuoteViews) + 1)
      ensures hasLocalChanges == old(hasLocalChanges)
    {
      var cleared := ClearCustom(quotes);
      if cleared.Failure? {
        return Failure(cleared.error);
      }
      quotes := cleared.value;
      currentCategory := "all";
      var d := SetActiveCategory("all", draws);
      r := Success(d);
    }
  }
}

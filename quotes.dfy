/** The value-level logic of dom-manipulation/script.js: quote records, the validation and
    normalisation done by `addQuote` and `importFromJsonFile`, the category filter and
    random pick of `showRandomQuote`, the category list of `updateCategoryFilters` and
    the export structure of `exportToJson`. The global state that these feed lives in
    the `QuoteApp` module. */
module Quotes {
  import opened Collections
  import opened JsStrings
  import opened JsonValues

  /** One quote of the collection. `text` and `category` are strings; `author` is kept as
      the parsed value because an import stores whatever truthy value the file held.
      The remaining fields exist only on some records (the default quotes have none of
      them, imported ones have no `lastModified` or `syncStatus`). */
  datatype Quote = Quote(
    text: string,
    category: string,
    author: Json,
    isCustom: bool,
    id: Option<Json>,
    dateAdded: Option<string>,
    lastModified: Option<string>,
    syncStatus: Option<string>)

  /** What a record made by `addQuote` or by an import looks like: trimmed non-empty text,
      a trimmed non-empty lower-case category, and a truthy author. */
  predicate WellFormed(q: Quote) {
    && q.text != [] && IsTrimmed(q.text)
    && q.category != [] && IsTrimmed(q.category) && IsLowerCase(q.category)
    && Truthy(q.author)
  }

  /** A category normalised as `addQuote` does it (trim, then lower-case) is well formed. */
  lemma NormalisedCategory(raw: string)
    requires !IsBlank(raw)
    ensures var c := Lower(Trim(raw)); c != [] && IsTrimmed(c) && IsLowerCase(c)
  {
    TrimEmptyIff(raw);
    TrimLowerCommute(Trim(raw));
    TrimFixedIff(raw);
    TrimFixedIff(Lower(Trim(raw)));
    TrimIdempotent(raw);
    LowerSpec(Trim(raw));
  }

  // ---------------------------------------------------------------- addQuote

  /** The two validation messages of `addQuote`, text first. */
  datatype AddError = MissingText | MissingCategory

  /** The record `addQuote` builds from its three form fields, or the validation error it
      shows. `id` stands for `generateUniqueId()` and `now` for the ISO timestamp used as
      both `dateAdded` and `lastModified`. */
  function NewQuote(textField: string, categoryField: string, authorField: string,
                    id: Json, now: string): Result<Quote, AddError>
  {
    var text := Trim(textField);
    var category := Trim(categoryField);
    var author := Trim(authorField);
    if text == [] then Failure(MissingText)
    else if category == [] then Failure(MissingCategory)
    else
      Success(Quote(
        text := text,
        category := Lower(category),
        author := OrElse(JStr(author), JStr("Anonymous")),
        isCustom := true,
        id := Some(id),
        dateAdded := Some(now),
        lastModified := Some(now),
        syncStatus := Some("pending")))
  }

  /** Text is checked before category; a blank field (empty after trimming) is missing.
      A new record is well formed and custom, its text trimmed, its category trimmed and
      lower-cased, a blank author replaced by "Anonymous", and it waits to be synced. */
  lemma NewQuoteSpec(textField: string, categoryField: string, authorField: string, id: Json, now: string)
    ensures var r := NewQuote(textField, categoryField, authorField, id, now);
      && (r == Failure(MissingText) <==> IsBlank(textField))
      && (r == Failure(MissingCategory) <==> !IsBlank(textField) && IsBlank(categoryField))
      && (r.Success? <==> !IsBlank(textField) && !IsBlank(categoryField))
      && (r.Success? ==>
        && WellFormed(r.value)
        && r.value.isCustom
        && r.value.text == Trim(textField)
        && r.value.category == Lower(Trim(categoryField))
        && r.value.author == (if IsBlank(authorField) then JStr("Anonymous") else JStr(Trim(authorField)))
        && r.value.id == Some(id)
        && r.value.dateAdded == Some(now) && r.value.lastModified == Some(now)
        && r.value.syncStatus == Some("pending"))
  {
    TrimEmptyIff(textField);
    TrimEmptyIff(categoryField);
    TrimEmptyIff(authorField);
    if !IsBlank(textField) && !IsBlank(categoryField) {
      NormalisedCategory(categoryField);
      TrimFixedIff(textField);
    }
  }

  // ---------------------------------------------------------------- importFromJsonFile

  /** Why an import ends without adding anything. `NoFile` is the silent return when no
      file was chosen; the rest are the messages the user sees. `NullData` is the
      `TypeError` raised by reading `quotes` of a file that holds `null`. */
  datatype ImportError =
    | NoFile
    | NotJsonFile
    | ReadFailed
    | InvalidJsonFormat
    | NullData
    | InvalidStructure
    | NoValidQuotes

  /** What reading and parsing the chosen file produced. */
  datatype FileContents = ReadError | Unparseable | Parsed(value: Json)

  datatype ImportFile = ImportFile(name: string, contents: FileContents)

  /** The records an import appends and the two counts it reports. */
  datatype ImportReport = ImportReport(added: seq<Quote>, importedCount: nat, skippedCount: nat)

  /** The shape check: a bare array, or an object whose `quotes` property is an array. */
  function QuotesToImport(data: Json): (r: Result<seq<Json>, ImportError>)
    ensures data.JArr? ==> r == Success(data.items)
    ensures data.JObj? && Member(data, "quotes").JArr? ==> r == Success(Member(data, "quotes").items)
    ensures data.JNull? ==> r == Failure(NullData)
    ensures !data.JArr? && !data.JNull? && !Member(data, "quotes").JArr? ==> r == Failure(InvalidStructure)
  {
    match data
    case JArr(items) => Success(items)
    case JNull => Failure(NullData)
    case JObj(fields) =>
      var q := Member(data, "quotes");
      if Truthy(q) && q.JArr? then Success(q.items) else Failure(InvalidStructure)
    case _ => Failure(InvalidStructure)
  }

  /** The per-item filter: a truthy item whose `text` and `category` are strings that are
      not blank. */
  predicate IsValidItem(item: Json) {
    && Truthy(item)
    && Member(item, "text").JStr? && Member(item, "category").JStr?
    && Trim(Member(item, "text").s) != []
    && Trim(Member(item, "category").s) != []
  }

  /** The record made from one valid item. `id` stands for `Date.now() + Math.random()`
      and `date` for the ISO timestamp of `dateAdded`. */
  function Normalise(item: Json, id: real, date: string): (q: Quote)
    requires IsValidItem(item)
    ensures WellFormed(q) && q.isCustom
    ensures q.text == Trim(Member(item, "text").s)
    ensures q.category == Lower(Trim(Member(item, "category").s))
    ensures Truthy(Member(item, "author")) ==> q.author == Member(item, "author")
    ensures !Truthy(Member(item, "author")) ==> q.author == JStr("Unknown")
  {
    var text := Member(item, "text").s;
    var category := Member(item, "category").s;
    TrimEmptyIff(category);
    NormalisedCategory(category);
    TrimLowerCommute(category);
    LowerIdempotent(Trim(category));
    TrimFixedIff(text);
    Quote(
      text := Trim(text),
      category := Trim(Lower(category)),
      author := OrElse(Member(item, "author"), JStr("Unknown")),
      isCustom := true,
      id := Some(JNum(id)),
      dateAdded := Some(date),
      lastModified := None,
      syncStatus := None)
  }

  /** Validation, normalisation and counting of the items of an import. `idOf(k)` and
      `dateOf(k)` are the clock readings taken for the k-th valid item. */
  function ImportItems(items: seq<Json>, idOf: nat -> real, dateOf: nat -> string)
    : (r: Result<ImportReport, ImportError>)
    ensures r.Success? <==> exists i :: 0 <= i < |items| && IsValidItem(items[i])
    ensures r.Failure? ==> r.error == NoValidQuotes
    ensures r.Success? ==>
      var valid := Filter(items, IsValidItem);
      && |r.value.added| == r.value.importedCount == |valid|
      && r.value.importedCount + r.value.skippedCount == |items|
      && (forall k :: 0 <= k < |valid| ==> r.value.added[k] == Normalise(valid[k], idOf(k), dateOf(k)))
  {
    var valid := Filter(items, IsValidItem);
    FilterEmptyIff(items, IsValidItem);
    if valid == [] then
      Failure(NoValidQuotes)
    else
      var added := seq(|valid|, k requires 0 <= k < |valid| => Normalise(valid[k], idOf(k), dateOf(k)));
      Success(ImportReport(added, |added|, |items| - |valid|))
  }

  /** `importFromJsonFile` from the chosen file to the report or the error, in the
      order the source checks things. */
  function ImportFromFile(file: Option<ImportFile>, idOf: nat -> real, dateOf: nat -> string)
    : (r: Result<ImportReport, ImportError>)
    ensures file.None? ==> r == Failure(NoFile)
    ensures file.Some? && !EndsWith(file.value.name, ".json") ==> r == Failure(NotJsonFile)
    ensures file.Some? && EndsWith(file.value.name, ".json") && file.value.contents.ReadError? ==>
      r == Failure(ReadFailed)
    ensures file.Some? && EndsWith(file.value.name, ".json") && file.value.contents.Unparseable? ==>
      r == Failure(InvalidJsonFormat)
    ensures (file.Some? && EndsWith(file.value.name, ".json") && file.value.contents.Parsed?
             && QuotesToImport(file.value.contents.value).Failure?) ==>
      r == Failure(QuotesToImport(file.value.contents.value).error)
    ensures r.Success? ==>
      && file.Some? && EndsWith(file.value.name, ".json") && file.value.contents.Parsed?
      && QuotesToImport(file.value.contents.value).Success?
      && r == ImportItems(QuotesToImport(file.value.contents.value).value, idOf, dateOf)
  {
    match file
    case None => Failure(NoFile)
    case Some(f) =>
      if !EndsWith(f.name, ".json") then Failure(NotJsonFile)
      else
        match f.contents
        case ReadError => Failure(ReadFailed)
        case Unparseable => Failure(InvalidJsonFormat)
        case Parsed(data) =>
          match QuotesToImport(data)
          case Failure(e) => Failure(e)
          case Success(items) => ImportItems(items, idOf, dateOf)
  }

  /** A `.json` file whose contents parse to an accepted shape is imported item by item. */
  lemma ImportParsedFile(name: string, data: Json, idOf: nat -> real, dateOf: nat -> string)
    requires EndsWith(name, ".json") && QuotesToImport(data).Success?
    ensures ImportFromFile(Some(ImportFile(name, Parsed(data))), idOf, dateOf)
      == ImportItems(QuotesToImport(data).value, idOf, dateOf)
  {
  }

  // ---------------------------------------------------------------- showRandomQuote

  /** The test of the category filter. */
  function MatchesCategory(selected: string): Quote -> bool {
    (q: Quote) => Lower(q.category) == Lower(selected)
  }

  /** The quotes `showRandomQuote` picks from: all of them for the selection "all",
      otherwise those whose category equals the selection ignoring case. */
  function FilterByCategory(qs: seq<Quote>, selected: string): (r: seq<Quote>)
    ensures |r| <= |qs| && forall q :: q in r ==> q in qs
  {
    if selected == "all" then qs else Filter(qs, MatchesCategory(selected))
  }

  /** The filter keeps, in order and with their multiplicities, exactly the quotes of the
      selected category; "all" keeps everything. */
  lemma FilterByCategorySpec(qs: seq<Quote>, more: seq<Quote>, selected: string, q: Quote)
    ensures selected == "all" ==> FilterByCategory(qs, selected) == qs
    ensures selected != "all" ==>
      multiset(FilterByCategory(qs, selected))[q] ==
        if Lower(q.category) == Lower(selected) then multiset(qs)[q] else 0
    ensures FilterByCategory(qs + more, selected) ==
      FilterByCategory(qs, selected) + FilterByCategory(more, selected)
  {
    if selected != "all" {
      FilterMultiplicity(qs, MatchesCategory(selected), q);
      FilterConcat(qs, more, MatchesCategory(selected));
    }
  }

  /** `Math.floor(r * n)` for a draw `r` of `Math.random()`. */
  function DrawIndex(r: real, n: nat): int {
    (r * n as real).Floor
  }

  lemma DrawIndexInRange(r: real, n: nat)
    requires 0.0 <= r < 1.0 && n > 0
    ensures 0 <= DrawIndex(r, n) < n
  {
    assert r * n as real < n as real;
  }

  /** The do-while loop stops on a draw when at most one quote qualifies or when the
      draw names an index other than the current one. */
  predicate Accepts(r: real, n: nat, current: int) {
    n <= 1 || DrawIndex(r, n) != current
  }

  /** The successive results of `Math.random()`: each in [0, 1), and, when something is
      to be picked, one of them eventually accepted (which happens with probability 1). */
  predicate DrawsSuffice(draws: seq<real>, n: nat, current: int) {
    && (forall k :: 0 <= k < |draws| ==> 0.0 <= draws[k] < 1.0)
    && (n > 0 ==> exists k :: 0 <= k < |draws| && Accepts(draws[k], n, current))
  }

  /** The do-while loop of `showRandomQuote`: draw indices until one is accepted. The
      result is in range, differs from `current` when more than one quote qualifies,
      and comes from the first accepted draw. */
  method PickIndex(n: nat, current: int, draws: seq<real>) returns (index: nat, used: nat)
    requires n > 0 && DrawsSuffice(draws, n, current)
    ensures 0 < used <= |draws| && index == DrawIndex(draws[used - 1], n)
    ensures index < n
    ensures n > 1 ==> index != current
    ensures Accepts(draws[used - 1], n, current)
    ensures forall k :: 0 <= k < used - 1 ==> !Accepts(draws[k], n, current)
  {
    ghost var w :| 0 <= w < |draws| && Accepts(draws[w], n, current);
    DrawIndexInRange(draws[0], n);
    index := DrawIndex(draws[0], n);
    used := 1;
    while index == current && n > 1
      invariant 0 < used <= w + 1 && used <= |draws|
      invariant index == DrawIndex(draws[used - 1], n) && index < n
      invariant forall k :: 0 <= k < used - 1 ==> !Accepts(draws[k], n, current)
      decreases |draws| - used
    {
      assert !Accepts(draws[used - 1], n, current);
      DrawIndexInRange(draws[used], n);
      index := DrawIndex(draws[used], n);
      used := used + 1;
    }
  }

  // ---------------------------------------------------------------- clearCustomQuotes

  /** The message shown when there is nothing to clear. */
  datatype ClearError = NoCustomQuotes

  predicate IsCustom(q: Quote) {
    q.isCustom
  }

  predicate IsNotCustom(q: Quote) {
    !q.isCustom
  }

  /** The collection `clearCustomQuotes` leaves (confirmation given), or its error. */
  function ClearCustom(qs: seq<Quote>): (r: Result<seq<Quote>, ClearError>)
    ensures r.Failure? <==> forall i :: 0 <= i < |qs| ==> !qs[i].isCustom
    ensures r.Success? ==> forall q :: multiset(r.value)[q] == if q.isCustom then 0 else multiset(qs)[q]
  {
    FilterEmptyIff(qs, IsCustom);
    if Filter(qs, IsCustom) == [] then Failure(NoCustomQuotes)
    else
      assert forall q :: multiset(Filter(qs, IsNotCustom))[q] == if q.isCustom then 0 else multiset(qs)[q] by {
        forall q ensures multiset(Filter(qs, IsNotCustom))[q] == if q.isCustom then 0 else multiset(qs)[q] {
          FilterMultiplicity(qs, IsNotCustom, q);
        }
      }
      Success(Filter(qs, IsNotCustom))
  }

  /** Clearing keeps the surviving quotes in their original order: it commutes with
      splitting the collection anywhere. */
  lemma ClearCustomKeepsOrder(a: seq<Quote>, b: seq<Quote>)
    requires ClearCustom(a + b).Success?
    ensures ClearCustom(a + b).value == Filter(a, IsNotCustom) + Filter(b, IsNotCustom)
  {
    FilterConcat(a, b, IsNotCustom);
  }

  // ---------------------------------------------------------------- updateCategoryFilters

  /** The lower-cased category of every quote, in collection order. */
  function LowerCategories(qs: seq<Quote>): (cs: seq<string>)
    ensures |cs| == |qs|
  {
    seq(|qs|, i requires 0 <= i < |qs| => Lower(qs[i].category))
  }

  /** `['all', ...new Set(quotes.map(q => q.category.toLowerCase()))]`. */
  function CategoryList(qs: seq<Quote>): (r: seq<string>)
    ensures 1 <= |r| <= |qs| + 1 && r[0] == "all"
  {
    ["all"] + Dedup(LowerCategories(qs))
  }

  /** The filter list starts with "all", then names every lower-cased category once, and
      no other, in the order in which the categories first appear in the collection. */
  lemma CategoryListSpec(qs: seq<Quote>)
    ensures var r := CategoryList(qs); var cs := LowerCategories(qs);
      && r[0] == "all"
      && (forall c :: c in r[1..] <==> exists i :: 0 <= i < |qs| && Lower(qs[i].category) == c)
      && Distinct(r[1..])
      && (forall i, j :: 0 <= i < j < |r| - 1 ==>
            r[1..][i] in cs && r[1..][j] in cs && FirstIndex(cs, r[1..][i]) < FirstIndex(cs, r[1..][j]))
  {
    var cs := LowerCategories(qs);
    var r := CategoryList(qs);
    assert r[1..] == Dedup(cs);
    DedupMembership(cs);
    DedupDistinct(cs);
    DedupOrder(cs);
    forall c ensures c in r[1..] <==> exists i :: 0 <= i < |qs| && Lower(qs[i].category) == c {
      if c in cs {
        var i :| 0 <= i < |cs| && cs[i] == c;
        assert Lower(qs[i].category) == c;
      }
      if exists i :: 0 <= i < |qs| && Lower(qs[i].category) == c {
        var i :| 0 <= i < |qs| && Lower(qs[i].category) == c;
        assert cs[i] == c;
      }
    }
  }

  // ---------------------------------------------------------------- exportToJson

  /** The structure `exportToJson` serialises. */
  datatype ExportData = ExportData(
    quotes: seq<Quote>,
    exportDate: string,
    version: string,
    totalQuotes: nat,
    categories: seq<string>)

  /** The raw category of every quote, in collection order (the export does not
      lower-case). */
  function RawCategories(qs: seq<Quote>): (cs: seq<string>)
    ensures |cs| == |qs|
  {
    seq(|qs|, i requires 0 <= i < |qs| => qs[i].category)
  }

  /** The export of the whole collection taken at time `now`. */
  function Export(qs: seq<Quote>, now: string): (e: ExportData)
    ensures e.quotes == qs && e.exportDate == now && e.version == "1.0"
    ensures e.totalQuotes == |qs|
    ensures Distinct(e.categories)
    ensures forall c :: c in e.categories <==> exists i :: 0 <= i < |qs| && qs[i].category == c
    ensures forall i, j :: 0 <= i < j < |e.categories| ==>
      e.categories[i] in RawCategories(qs) && e.categories[j] in RawCategories(qs) &&
      FirstIndex(RawCategories(qs), e.categories[i]) < FirstIndex(RawCategories(qs), e.categories[j])
  {
    var cs := RawCategories(qs);
    DedupDistinct(cs);
    DedupMembership(cs);
    DedupOrder(cs);
    assert forall c :: c in cs <==> exists i :: 0 <= i < |qs| && qs[i].category == c by {
      forall c ensures c in cs <==> exists i :: 0 <= i < |qs| && qs[i].category == c {
        if exists i :: 0 <= i < |qs| && qs[i].category == c {
          var i :| 0 <= i < |qs| && qs[i].category == c;
          assert cs[i] == c;
        }
      }
    }
    ExportData(qs, now, "1.0", |qs|, Dedup(cs))
  }

  /** `quotes-export-<date>.json`, the date being the part of the ISO timestamp before
      its 'T'. */
  function ExportFileName(now: string): (name: string)
    ensures EndsWith(name, ".json")
    ensures |name| >= 19 && name[..14] == "quotes-export-" && name[14..|name| - 5] == BeforeFirst(now, 'T')
  {
    var name := "quotes-export-" + BeforeFirst(now, 'T') + ".json";
    assert name[|name| - 5..] == ".json";
    assert name[..14] == "quotes-export-";
    assert name[14..|name| - 5] == BeforeFirst(now, 'T');
    name
  }

  function OptionalField(name: string, v: Option<Json>): map<string, Json> {
    if v.Some? then map[name := v.value] else map[]
  }

  function OptionalString(name: string, v: Option<string>): map<string, Json> {
    if v.Some? then map[name := JStr(v.value)] else map[]
  }

  /** A record as `JSON.stringify` writes it and `JSON.parse` reads it back: missing
      optional fields are absent. */
  function QuoteToJson(q: Quote): Json {
    JObj(
      OptionalField("id", q.id) + OptionalString("dateAdded", q.dateAdded)
      + OptionalString("lastModified", q.lastModified) + OptionalString("syncStatus", q.syncStatus)
      + map["text" := JStr(q.text), "category" := JStr(q.category),
            "author" := q.author, "isCustom" := JBool(q.isCustom)])
  }

  /** The records of a collection as they appear in an export file. */
  function QuoteItems(qs: seq<Quote>): (items: seq<Json>)
    ensures |items| == |qs|
  {
    seq(|qs|, i requires 0 <= i < |qs| => QuoteToJson(qs[i]))
  }

  /** The export file's contents as parsed back by `JSON.parse`. */
  function ExportToJson(e: ExportData): Json {
    JObj(map[
      "quotes" := JArr(QuoteItems(e.quotes)),
      "exportDate" := JStr(e.exportDate),
      "version" := JStr(e.version),
      "totalQuotes" := JNum(e.totalQuotes as real),
      "categories" := JArr(seq(|e.categories|, i requires 0 <= i < |e.categories| => JStr(e.categories[i])))])
  }

  /** Re-importing one exported well-formed record gives back its text, category and
      author. */
  lemma ReimportQuote(q: Quote, id: real, date: string)
    requires WellFormed(q)
    ensures IsValidItem(QuoteToJson(q))
    ensures var r := Normalise(QuoteToJson(q), id, date);
      r.text == q.text && r.category == q.category && r.author == q.author && r.isCustom
  {
    QuoteToJsonMembers(q);
    TrimFixedIff(q.text);
    TrimFixedIff(q.category);
    LowerSpec(q.category);
  }

  /** The exported object carries the record's text, category and author unchanged. */
  lemma QuoteToJsonMembers(q: Quote)
    ensures Truthy(QuoteToJson(q))
    ensures Member(QuoteToJson(q), "text") == JStr(q.text)
    ensures Member(QuoteToJson(q), "category") == JStr(q.category)
    ensures Member(QuoteToJson(q), "author") == q.author
  {
    var base := map["text" := JStr(q.text), "category" := JStr(q.category),
                    "author" := q.author, "isCustom" := JBool(q.isCustom)];
    assert "text" in base && "category" in base && "author" in base;
  }

  /** Importing an export file brings back, in order, the text, category and author of
      every well-formed quote of a non-empty collection; every record comes back custom. */
  lemma ExportImportRoundTrip(qs: seq<Quote>, now: string, idOf: nat -> real, dateOf: nat -> string)
    requires qs != []
    requires forall i :: 0 <= i < |qs| ==> WellFormed(qs[i])
    ensures var r := ImportFromFile(
        Some(ImportFile(ExportFileName(now), Parsed(ExportToJson(Export(qs, now))))), idOf, dateOf);
      && r.Success?
      && |r.value.added| == |qs| && r.value.skippedCount == 0
      && forall k :: 0 <= k < |qs| ==>
           && r.value.added[k].text == qs[k].text
           && r.value.added[k].category == qs[k].category
           && r.value.added[k].author == qs[k].author
           && r.value.added[k].isCustom
  {
    var data := ExportToJson(Export(qs, now));
    var items := QuoteItems(qs);
    assert Member(data, "quotes") == JArr(items);
    assert QuotesToImport(data) == Success(items);
    forall i | 0 <= i < |items| ensures IsValidItem(items[i]) {
      ReimportQuote(qs[i], 0.0, "");
    }
    FilterKeepsAll(items, IsValidItem);
    var r := ImportItems(items, idOf, dateOf);
    assert IsValidItem(items[0]);
    assert r.Success?;
    var name := ExportFileName(now);
    ImportParsedFile(name, data, idOf, dateOf);
    forall k | 0 <= k < |qs|
      ensures r.value.added[k].text == qs[k].text
      ensures r.value.added[k].category == qs[k].category
      ensures r.value.added[k].author == qs[k].author
    {
      ReimportQuote(qs[k], idOf(k), dateOf(k));
    }
  }

  /** The export of an empty collection is a `.json` file of the accepted shape, yet
      importing it fails: it holds no valid quote. */
  lemma ExportEmptyImportFails(now: string, idOf: nat -> real, dateOf: nat -> string)
    ensures ImportFromFile(
        Some(ImportFile(ExportFileName(now), Parsed(ExportToJson(Export([], now))))), idOf, dateOf)
      == Failure(NoValidQuotes)
  {
    var data := ExportToJson(Export([], now));
    assert Member(data, "quotes") == JArr(QuoteItems([]));
    assert QuotesToImport(data) == Success(QuoteItems([]));
  }
}

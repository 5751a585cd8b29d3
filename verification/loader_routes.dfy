/** The `/load-data` handler: after the upload checks, the file is read by
    `load_data`, every abstract goes through the translator (keeping the
    original when translation fails), and one dataset plus one article per
    row are added and committed together. */
module LoaderRoutes {
  import opened Base
  import opened Values
  import opened Strings
  import opened Records
  import opened Store
  import Datasets = DatasetsModel
  import Articles = ArticlesModel
  import Loader

  /** One row of the frame `load_data` returns: a cell's text, `None` for NaN. */
  type Cells = map<string, Option<string>>

  /** The suffixes the handler accepts. `load_data` also reads `.nbib`, but
      such files are refused here. */
  const LoadExtensions: seq<string> := [".csv", ".xlsx"]

  const LoadPrefix: string := "Error loading data: "
  const EmptyFile: string := "El archivo está vacío o no se pudo leer."

  /** The message of a successful load. */
  function Loaded(n: nat, researchId: string): (msg: string)
    ensures StartsWith(msg, "Successfully loaded ") && EndsWith(msg, researchId)
  {
    "Successfully loaded " + NatToString(n) + " articles to research " + researchId
  }

  /** A `generate_unique_id` that only ever returns identifiers no row of the
      table it is given holds. The source's query reads committed rows only
      (the session does not autoflush), so freshness against the articles
      added earlier in the same upload rests on `uuid4` never repeating:
      that is what this hypothesis assumes of the session's table. */
  ghost predicate FreshIds(gen: Table -> string) {
    forall t: Table :: !ExistsWhere(t, ColEq("id", Str(gen(t))))
  }

  // ------------------------------------------------------------------ cells

  /** `row.get(c, default)`: the cell as a string, NaN as `None`, and
      `default` when the frame has no such column. */
  function Cell(row: Cells, c: string, default: Value): (v: Value)
    ensures c !in row ==> v == default
    ensures c in row ==> (v == Null <==> row[c].None?)
    ensures c in row && row[c].Some? ==> v == Str(row[c].value)
  {
    if c !in row then default
    else match row[c]
      case Some(x) => Str(x)
      case None => Null
  }

  /** `str(text)` of an abstract cell: NaN prints as `nan`. */
  function Text(v: Value): string {
    match v
    case Str(x) => x
    case _ => "nan"
  }

  /** `int(y) if pd.notna(y) and str(y).isdigit() else None`. */
  function YearOf(row: Cells): (v: Value)
    ensures v.Null? || v.Int?
    ensures v != Null <==> "year" in row && row["year"].Some? && AllDigits(row["year"].value)
  {
    if "year" in row && row["year"].Some? && AllDigits(row["year"].value) then
      Int(DigitsValue(row["year"].value))
    else Null
  }

  /** A year cell holding a rendered number reads back as that number. */
  lemma YearOfRendered(row: Cells, n: nat)
    requires "year" in row && row["year"] == Some(NatToString(n))
    ensures YearOf(row) == Int(n)
  {
    DigitsValueOfNatToString(n);
  }

  // ------------------------------------------------------------ translation

  /** `(lang, confidence, text)` as the translator returns them. */
  datatype Translated = Translated(lang: Value, confidence: Value, abstractText: Value)

  /** `translator.check_en(str(text))`: a language, a confidence and the
      English text, or an error. */
  type Translator = string -> Outcome<(Value, Value, string)>

  /** One step of the translation loop: on failure, no language, no
      confidence and the abstract exactly as it was. */
  function Translate(original: Value, translate: Translator): (tr: Translated)
    ensures translate(Text(original)).Raised? ==> tr == Translated(Null, Null, original)
    ensures translate(Text(original)).Ok? ==>
      tr.abstractText == Str(translate(Text(original)).value.2)
      && tr.lang == translate(Text(original)).value.0
      && tr.confidence == translate(Text(original)).value.1
  {
    match translate(Text(original))
    case Ok((lang, confidence, text)) => Translated(lang, confidence, Str(text))
    case Raised(_) => Translated(Null, Null, original)
  }

  /** The translation of every abstract, in row order. */
  function Translations(rows: seq<Cells>, translate: Translator): (trs: seq<Translated>)
    ensures |trs| == |rows|
    ensures forall k :: 0 <= k < |rows| ==> trs[k] == Translate(Cell(rows[k], "abstract", Null), translate)
  {
    seq(|rows|, k requires 0 <= k < |rows| => Translate(Cell(rows[k], "abstract", Null), translate))
  }

  // ---------------------------------------------------------------- records

  /** The dataset `dict_new`. `number_of_records` is a string column, so the
      row count is stored, and read back, as its decimal text. */
  function DatasetRecord(id: string, filename: string, n: nat, researchId: string, now: int): map<string, Value> {
    map["id" := Str(id), "filename" := Str(filename), "created_at" := Time(now), "updated_at" := Time(now),
        "number_of_records" := Str(NatToString(n)), "datasetOwnerId" := Str(researchId)]
  }

  lemma DatasetRecordFields(id: string, filename: string, n: nat, researchId: string, now: int)
    ensures var d := DatasetRecord(id, filename, n, researchId, now);
      (forall k :: k in d ==> k in Datasets.Schema.columns)
      && "id" in d && d["id"] == Str(id) && "filename" in d && d["filename"] == Str(filename)
      && "number_of_records" in d && d["number_of_records"] == Str(NatToString(n))
      && "datasetOwnerId" in d && d["datasetOwnerId"] == Str(researchId)
  {
  }

  /** `Datasets.add(dict_new)`: the new dataset records the file, its row
      count and the research it belongs to. */
  function AddDataset(t: Table, id: string, filename: string, n: nat, researchId: string, now: int): (r: Table)
    ensures |r| == |t| + 1 && r[..|t|] == t
    ensures Field(r[|t|], "id") == Str(id) && Field(r[|t|], "filename") == Str(filename)
    ensures Field(r[|t|], "number_of_records") == Str(NatToString(n))
    ensures Field(r[|t|], "datasetOwnerId") == Str(researchId)
  {
    DatasetRecordFields(id, filename, n, researchId, now);
    Datasets.Add(t, DatasetRecord(id, filename, n, researchId, now), now).value
  }

  /** The article `dict_new` for one row; `label` only for a test research. */
  function ArticleRecord(id: string, row: Cells, tr: Translated, datasetId: string, isTest: bool, now: int): map<string, Value> {
    var d := map["id" := Str(id), "title" := Cell(row, "title", Str("")), "abstract" := tr.abstractText,
                 "abstract_original" := Cell(row, "abstract", Str("")), "year" := YearOf(row),
                 "created_at" := Time(now), "updated_at" := Time(now), "is_active" := Bool(true),
                 "articleOwnerId" := Str(datasetId)];
    if isTest then d["label" := Cell(row, "label", Null)] else d
  }

  /** The stored article agrees with its frame row. */
  predicate ArticleMatches(a: Row, row: Cells, tr: Translated, datasetId: string, isTest: bool) {
    Field(a, "title") == Cell(row, "title", Str(""))
    && Field(a, "abstract") == tr.abstractText
    && Field(a, "abstract_original") == Cell(row, "abstract", Str(""))
    && Field(a, "year") == YearOf(row)
    && Field(a, "is_active") == Bool(true)
    && Field(a, "articleOwnerId") == Str(datasetId)
    && (isTest ==> Field(a, "label") == Cell(row, "label", Null))
  }

  lemma ArticleRecordFields(id: string, row: Cells, tr: Translated, datasetId: string, isTest: bool, now: int)
    ensures var d := ArticleRecord(id, row, tr, datasetId, isTest, now);
      (forall k :: k in d ==> k in Articles.Schema.columns)
      && ("label" in d <==> isTest)
      && "id" in d && d["id"] == Str(id)
      && "title" in d && d["title"] == Cell(row, "title", Str(""))
      && "abstract" in d && d["abstract"] == tr.abstractText
      && "abstract_original" in d && d["abstract_original"] == Cell(row, "abstract", Str(""))
      && "year" in d && d["year"] == YearOf(row)
      && "is_active" in d && d["is_active"] == Bool(true)
      && "articleOwnerId" in d && d["articleOwnerId"] == Str(datasetId)
      && (isTest ==> d["label"] == Cell(row, "label", Null))
  {
  }

  /** `Articles.add(dict_new)` for one row. */
  function AddArticle(t: Table, id: string, row: Cells, tr: Translated, datasetId: string, isTest: bool, now: int): (r: Table)
    ensures |r| == |t| + 1 && r[..|t|] == t
    ensures Field(r[|t|], "id") == Str(id)
    ensures ArticleMatches(r[|t|], row, tr, datasetId, isTest)
  {
    ArticleRecordFields(id, row, tr, datasetId, isTest, now);
    Articles.Add(t, ArticleRecord(id, row, tr, datasetId, isTest, now), now).value
  }

  /** `news[base + k]` is the article stored for `rows[k]`, for every `k`. */
  predicate AllMatch(news: seq<Row>, base: nat, rows: seq<Cells>, trs: seq<Translated>, datasetId: string, isTest: bool)
    decreases |rows|
  {
    |news| == base + |rows| && |trs| == |rows|
    && (|rows| == 0
        || (ArticleMatches(news[base], rows[0], trs[0], datasetId, isTest)
            && AllMatch(news, base + 1, rows[1..], trs[1..], datasetId, isTest)))
  }

  /** The match of one row, read out of `AllMatch`. */
  lemma {:induction false} AllMatchAt(news: seq<Row>, base: nat, rows: seq<Cells>, trs: seq<Translated>,
                                      datasetId: string, isTest: bool, k: nat)
    requires AllMatch(news, base, rows, trs, datasetId, isTest) && k < |rows|
    ensures ArticleMatches(news[base + k], rows[k], trs[k], datasetId, isTest)
    decreases k
  {
    if k > 0 {
      AllMatchAt(news, base + 1, rows[1..], trs[1..], datasetId, isTest, k - 1);
    }
  }

  /** The article loop: one article per row, in order, each with an id from
      the generator applied to the session's table as it stands. */
  function AddArticles(t: Table, rows: seq<Cells>, trs: seq<Translated>, gen: Table -> string,
                       datasetId: string, isTest: bool, now: int): (r: Table)
    requires |trs| == |rows|
    ensures |r| == |t| + |rows| && r[..|t|] == t
    ensures AllMatch(r, |t|, rows, trs, datasetId, isTest)
    decreases |rows|
  {
    if |rows| == 0 then t
    else
      var t' := AddArticle(t, gen(t), rows[0], trs[0], datasetId, isTest, now);
      var r := AddArticles(t', rows[1..], trs[1..], gen, datasetId, isTest, now);
      assert r[|t|] == r[..|t'|][|t|];
      assert r[..|t|] == r[..|t'|][..|t|];
      r
  }

  // ------------------------------------------------------------ constraints

  /** A row carrying all five NOT NULL columns of the article table. */
  lemma ArticleNotNull(a: Row)
    requires Field(a, "id") != Null && Field(a, "title") != Null && Field(a, "abstract") != Null
    requires Field(a, "abstract_original") != Null && Field(a, "year") != Null
    ensures forall c :: c in Articles.Schema.notNull ==> Field(a, c) != Null
    ensures forall j :: 0 <= j < |Articles.Schema.key| ==> Field(a, Articles.Schema.key[j]) != Null
  {
  }

  /** Appending one article with a fresh id keeps the table committable
      exactly when its year is set. */
  lemma AddArticleAdmissible(t: Table, id: string, row: Cells, tr: Translated, datasetId: string, isTest: bool, now: int)
    requires Admissible(t, Articles.Schema)
    requires !ExistsWhere(t, ColEq("id", Str(id)))
    requires Loader.HasTitleAndAbstract(row) && tr.abstractText != Null
    ensures Admissible(AddArticle(t, id, row, tr, datasetId, isTest, now), Articles.Schema) <==> YearOf(row) != Null
  {
    var t' := AddArticle(t, id, row, tr, datasetId, isTest, now);
    var a := t'[|t|];
    assert "year" in Articles.Schema.notNull;
    if YearOf(row) != Null {
      ArticleNotNull(a);
      assert t' == t + [a];
      assert Articles.Schema.key == ["id"];
      forall i | 0 <= i < |t| ensures !SameKey(t[i], a, Articles.Schema.key) {
        assert !ColEq("id", Str(id))(t[i]);
        assert Field(t[i], Articles.Schema.key[0]) != Field(a, Articles.Schema.key[0]);
      }
      InsertAdmissible(t, a, Articles.Schema);
    }
  }

  /** Every translated abstract is set when every row has an abstract. */
  lemma TranslationsSet(rows: seq<Cells>, translate: Translator)
    requires forall k :: 0 <= k < |rows| ==> Loader.HasTitleAndAbstract(rows[k])
    ensures forall k :: 0 <= k < |rows| ==> Translations(rows, translate)[k].abstractText != Null
  {
  }

  /** With ids that are always fresh, the article loop leaves a committable
      table exactly when every row's year parses: one bad year makes the
      NOT NULL constraint reject the whole upload. */
  lemma {:induction false} AddArticlesAdmissible(t: Table, rows: seq<Cells>, trs: seq<Translated>, gen: Table -> string,
                                                 datasetId: string, isTest: bool, now: int)
    requires Admissible(t, Articles.Schema) && FreshIds(gen) && |trs| == |rows|
    requires forall k :: 0 <= k < |rows| ==> Loader.HasTitleAndAbstract(rows[k]) && trs[k].abstractText != Null
    ensures Admissible(AddArticles(t, rows, trs, gen, datasetId, isTest, now), Articles.Schema)
            <==> forall k :: 0 <= k < |rows| ==> YearOf(rows[k]) != Null
    decreases |rows|
  {
    if |rows| > 0 {
      var t' := AddArticle(t, gen(t), rows[0], trs[0], datasetId, isTest, now);
      assert !ExistsWhere(t, ColEq("id", Str(gen(t))));
      AddArticleAdmissible(t, gen(t), rows[0], trs[0], datasetId, isTest, now);
      if YearOf(rows[0]) != Null {
        AddArticlesAdmissible(t', rows[1..], trs[1..], gen, datasetId, isTest, now);
        AllYearsSplit(rows);
      } else {
        FirstYearMissing(t, t', rows, trs, gen, datasetId, isTest, now);
      }
    }
  }

  /** Every row's year is set exactly when the first one's and the rest's are. */
  lemma AllYearsSplit(rows: seq<Cells>)
    requires |rows| > 0 && YearOf(rows[0]) != Null
    ensures (forall k :: 0 <= k < |rows| ==> YearOf(rows[k]) != Null)
            <==> (forall k :: 0 <= k < |rows| - 1 ==> YearOf(rows[1..][k]) != Null)
  {
    if forall k :: 0 <= k < |rows| - 1 ==> YearOf(rows[1..][k]) != Null {
      forall k | 1 <= k < |rows| ensures YearOf(rows[k]) != Null {
        assert rows[k] == rows[1..][k - 1];
      }
    }
  }

  /** A first row without a year leaves a NULL in a NOT NULL column. */
  lemma FirstYearMissing(t: Table, t': Table, rows: seq<Cells>, trs: seq<Translated>, gen: Table -> string,
                         datasetId: string, isTest: bool, now: int)
    requires |trs| == |rows| > 0 && YearOf(rows[0]) == Null
    requires t' == AddArticle(t, gen(t), rows[0], trs[0], datasetId, isTest, now)
    ensures !Admissible(AddArticles(t, rows, trs, gen, datasetId, isTest, now), Articles.Schema)
  {
    var r := AddArticles(t, rows, trs, gen, datasetId, isTest, now);
    assert "year" in Articles.Schema.notNull;
    assert Field(r[|t|], "year") == Null;
  }

  // -------------------------------------------------------------- handler

  /** The session after the dataset and the article loop, before commit:
      one new dataset recording the file, and one new article per row owned
      by it; nothing else changes. */
  function Pending(s: Store, researchId: string, filename: string, rows: seq<Cells>, isTest: bool,
                   translate: Translator, genDataset: Table -> string, genArticle: Table -> string,
                   now: int): (p: Store)
    ensures p == s.(datasets := p.datasets, articles := p.articles)
    ensures |p.datasets| == |s.datasets| + 1 && p.datasets[..|s.datasets|] == s.datasets
    ensures var dataset := p.datasets[|s.datasets|];
      Field(dataset, "id") == Str(genDataset(s.datasets)) && Field(dataset, "filename") == Str(filename)
      && Field(dataset, "number_of_records") == Str(NatToString(|rows|))
      && Field(dataset, "datasetOwnerId") == Str(researchId)
    ensures |p.articles| == |s.articles| + |rows| && p.articles[..|s.articles|] == s.articles
    ensures AllMatch(p.articles, |s.articles|, rows, Translations(rows, translate), genDataset(s.datasets), isTest)
  {
    var trs := Translations(rows, translate);
    var datasetId := genDataset(s.datasets);
    s.(datasets := AddDataset(s.datasets, datasetId, filename, |rows|, researchId, now),
       articles := AddArticles(s.articles, rows, trs, genArticle, datasetId, isTest, now))
  }

  /** The `try` block after the file has been read into `rows`: translate,
      add the dataset and the articles, commit. A failed commit rolls back
      and answers 400. */
  function LoadRows(s: Store, researchId: string, filename: string, rows: seq<Cells>, isTest: bool,
                    translate: Translator, genDataset: Table -> string, genArticle: Table -> string,
                    now: int): (r: Reply<Json>)
    ensures r.response.Failure? ==> r.store == s && r.response == Failure(400, LoadPrefix + IntegrityError)
    ensures r.response.Success? <==>
      Consistent(Pending(s, researchId, filename, rows, isTest, translate, genDataset, genArticle, now))
    ensures r.response.Success? ==>
      r.store == Pending(s, researchId, filename, rows, isTest, translate, genDataset, genArticle, now)
      && r.response.body == JObj(map["message" := JStr(Loaded(|rows|, researchId))])
  {
    CommitOr(s, Pending(s, researchId, filename, rows, isTest, translate, genDataset, genArticle, now),
             JObj(map["message" := JStr(Loaded(|rows|, researchId))]), LoadPrefix)
  }

  /** With a consistent store and fresh identifiers, a frame whose rows all
      have a title and an abstract loads exactly when every year parses. */
  lemma LoadRowsSucceedsIff(s: Store, researchId: string, filename: string, rows: seq<Cells>, isTest: bool,
                            translate: Translator, genDataset: Table -> string, genArticle: Table -> string, now: int)
    requires Consistent(s) && FreshIds(genDataset) && FreshIds(genArticle)
    requires forall k :: 0 <= k < |rows| ==> Loader.HasTitleAndAbstract(rows[k])
    ensures LoadRows(s, researchId, filename, rows, isTest, translate, genDataset, genArticle, now).response.Success?
            <==> forall k :: 0 <= k < |rows| ==> YearOf(rows[k]) != Null
  {
    var trs := Translations(rows, translate);
    var datasetId := genDataset(s.datasets);
    var p := Pending(s, researchId, filename, rows, isTest, translate, genDataset, genArticle, now);
    assert p.datasets == AddDataset(s.datasets, datasetId, filename, |rows|, researchId, now);
    assert p.articles == AddArticles(s.articles, rows, trs, genArticle, datasetId, isTest, now);
    TranslationsSet(rows, translate);
    AddArticlesAdmissible(s.articles, rows, trs, genArticle, datasetId, isTest, now);
    assert !ExistsWhere(s.datasets, ColEq("id", Str(datasetId)));
    AddDatasetAdmissible(s.datasets, datasetId, filename, |rows|, researchId, now);
    ConsistentAfterUpload(s, p);
  }

  /** Only the dataset and article tables change, so only theirs can break. */
  lemma ConsistentAfterUpload(s: Store, p: Store)
    requires Consistent(s) && p == s.(datasets := p.datasets, articles := p.articles)
    ensures Consistent(p) <==>
      Admissible(p.datasets, Datasets.Schema) && Admissible(p.articles, Articles.Schema)
  {
  }

  /** A dataset with a fresh id keeps the dataset table committable. */
  lemma AddDatasetAdmissible(t: Table, id: string, filename: string, n: nat, researchId: string, now: int)
    requires Admissible(t, Datasets.Schema) && !ExistsWhere(t, ColEq("id", Str(id)))
    ensures Admissible(AddDataset(t, id, filename, n, researchId, now), Datasets.Schema)
  {
    var t' := AddDataset(t, id, filename, n, researchId, now);
    var a := t'[|t|];
    assert t' == t + [a];
    assert Datasets.Schema.key == ["id"] && Datasets.Schema.notNull == {"id", "filename"};
    forall i | 0 <= i < |t| ensures !SameKey(t[i], a, Datasets.Schema.key) {
      assert !ColEq("id", Str(id))(t[i]);
      assert Field(t[i], Datasets.Schema.key[0]) != Field(a, Datasets.Schema.key[0]);
    }
    InsertAdmissible(t, a, Datasets.Schema);
  }

  /** A frame `load_data` returns with columns has a title and an abstract in
      every row. */
  lemma LoadedRowsComplete(filename: string, flagTest: bool, nbibText: Option<string>,
                           csvFrame: Loader.Frame, xlsxFrame: Loader.Frame)
    requires Loader.LoadData(filename, flagTest, nbibText, csvFrame, xlsxFrame).Ok?
    requires !Loader.LoadData(filename, flagTest, nbibText, csvFrame, xlsxFrame).value.IsEmpty()
    ensures var rows := Loader.LoadData(filename, flagTest, nbibText, csvFrame, xlsxFrame).value.rows;
      forall k :: 0 <= k < |rows| ==> Loader.HasTitleAndAbstract(rows[k])
  {
  }

  /** `POST /load-data`. The file's contents are parameters: `nbibText`,
      `csvFrame` and `xlsxFrame` are what the readers make of it. */
  function LoadAs(s: Store, username: string, researchId: string, filename: string,
                  nbibText: Option<string>, csvFrame: Loader.Frame, xlsxFrame: Loader.Frame,
                  translate: Translator, genDataset: Table -> string, genArticle: Table -> string,
                  now: int): (r: Reply<Json>)
    ensures r.response.Failure? ==> r.store == s
    ensures UploadChecks(s, username, researchId, filename, LoadExtensions).Failure? ==>
      r.response == Failure(UploadChecks(s, username, researchId, filename, LoadExtensions).status,
                            UploadChecks(s, username, researchId, filename, LoadExtensions).detail)
    ensures UploadChecks(s, username, researchId, filename, LoadExtensions).Success? ==> (
      var isTest := Truthy(Field(UploadChecks(s, username, researchId, filename, LoadExtensions).body.1, "is_test"));
      var loaded := Loader.LoadData(filename, isTest, nbibText, csvFrame, xlsxFrame);
      (loaded.Raised? ==> r.response == Failure(400, LoadPrefix + loaded.msg))
      && (loaded.Ok? && loaded.value.IsEmpty() ==>
            r.response == Failure(400, LoadPrefix + ExceptionText(400, EmptyFile)))
      && (loaded.Ok? && !loaded.value.IsEmpty() ==>
            r == LoadRows(s, researchId, filename, loaded.value.rows, isTest, translate, genDataset, genArticle, now)))
  {
    match UploadChecks(s, username, researchId, filename, LoadExtensions)
    case Failure(status, detail) => Reply(s, Failure(status, detail))
    case Success((_, research)) =>
      var isTest := Truthy(Field(research, "is_test"));
      match Loader.LoadData(filename, isTest, nbibText, csvFrame, xlsxFrame)
      case Raised(m) => Reply(s, Failure(400, LoadPrefix + m))
      case Ok(df) =>
        if df.IsEmpty() then Reply(s, Failure(400, LoadPrefix + ExceptionText(400, EmptyFile)))
        else LoadRows(s, researchId, filename, df.rows, isTest, translate, genDataset, genArticle, now)
  }

  /** With a consistent store and identifiers that are always fresh, an
      upload is stored exactly when the checks pass, the file reads into a
      non-empty frame, and every row's year is a string of digits. */
  lemma LoadAsSucceedsIff(s: Store, username: string, researchId: string, filename: string,
                          nbibText: Option<string>, csvFrame: Loader.Frame, xlsxFrame: Loader.Frame,
                          translate: Translator, genDataset: Table -> string, genArticle: Table -> string, now: int)
    requires Consistent(s) && FreshIds(genDataset) && FreshIds(genArticle)
    ensures (LoadAs(s, username, researchId, filename, nbibText, csvFrame, xlsxFrame, translate,
                    genDataset, genArticle, now).response.Success?) <==> (
      UploadChecks(s, username, researchId, filename, LoadExtensions).Success?
      && var isTest := Truthy(Field(UploadChecks(s, username, researchId, filename, LoadExtensions).body.1, "is_test"));
      var loaded := Loader.LoadData(filename, isTest, nbibText, csvFrame, xlsxFrame);
      loaded.Ok? && !loaded.value.IsEmpty()
      && forall k :: 0 <= k < |loaded.value.rows| ==> YearOf(loaded.value.rows[k]) != Null)
  {
    var checks := UploadChecks(s, username, researchId, filename, LoadExtensions);
    if checks.Success? {
      var isTest := Truthy(Field(checks.body.1, "is_test"));
      var loaded := Loader.LoadData(filename, isTest, nbibText, csvFrame, xlsxFrame);
      if loaded.Ok? && !loaded.value.IsEmpty() {
        LoadedRowsComplete(filename, isTest, nbibText, csvFrame, xlsxFrame);
        LoadRowsSucceedsIff(s, researchId, filename, loaded.value.rows, isTest, translate, genDataset, genArticle, now);
      }
    }
  }

  /** A `.nbib` file is refused by the extension check even though the
      loader could parse it. */
  lemma NbibRefused(s: Store, username: string, researchId: string, stem: string,
                    nbibText: Option<string>, csvFrame: Loader.Frame, xlsxFrame: Loader.Frame,
                    translate: Translator, genDataset: Table -> string, genArticle: Table -> string, now: int)
    requires |stem| > 0 && stem[|stem| - 1] != '.' && stem[|stem| - 1] != '/'
    requires UsersModel.GetUsername(s.users, username).Some?
    requires IsActive(UsersModel.GetUsername(s.users, username).value)
    requires MayManage(UsersModel.GetUsername(s.users, username).value)
    ensures LoadAs(s, username, researchId, stem + ".nbib", nbibText, csvFrame, xlsxFrame, translate,
                   genDataset, genArticle, now).response == Failure(400, BadExtension(LoadExtensions))
  {
    ExtensionOfSuffix(stem, ".nbib");
    assert ".nbib" !in LoadExtensions by {
      assert ".nbib"[1] == 'n' && LoadExtensions[0][1] == 'c' && LoadExtensions[1][1] == 'x';
    }
  }
}

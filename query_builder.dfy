/**
 * The query builder: turns the search form's options into the clause list of an
 * Internet Archive advanced search, the `q` string and the request's parameter list.
 */
module QueryBuilder {
  import opened Strings
  import opened ArchiveTypes

  /** The downloads ceiling used when the form gives none (or 0). */
  const DefaultMaxDownloads := 5000

  const MediaTypeClause := "mediatype:(texts)"

  /** The fields requested for every document, in request order. */
  const Fields: seq<string> :=
    ["identifier", "title", "year", "creator", "language", "downloads", "pages", "collection", "publicdate", "subject"]

  function YearClause(startYear: int, endYear: int): string
  {
    "year:[" + IntToString(startYear) + " TO " + IntToString(endYear) + "]"
  }

  /** `options.maxDownloads || 5000`. */
  function DownloadsCeiling(options: SearchOptions): int
  {
    if options.maxDownloads != 0 then options.maxDownloads else DefaultMaxDownloads
  }

  function DownloadsClause(options: SearchOptions): (clause: string)
    ensures Initials(clause) == ('d', 'o')
  {
    "downloads:[0 TO " + IntToString(DownloadsCeiling(options)) + "]"
  }

  /** `.map(c => c.trim()).filter(c => c)`: each piece trimmed, the empty ones dropped, order kept. */
  function TrimAndDrop(pieces: seq<string>): (tokens: seq<string>)
    ensures |tokens| <= |pieces|
    ensures forall i :: 0 <= i < |tokens| ==> |tokens[i]| > 0
  {
    if |pieces| == 0 then []
    else
      var t := Trim(pieces[0]);
      (if |t| == 0 then [] else [t]) + TrimAndDrop(pieces[1..])
  }

  /** The collection names of the comma-separated filter. */
  function CollectionTokens(collections: string): seq<string>
  {
    TrimAndDrop(Split(collections, ','))
  }

  /** `.map(c => `"${c}"`)`. */
  function QuoteAll(tokens: seq<string>): (quoted: seq<string>)
    ensures |quoted| == |tokens|
    ensures forall i :: 0 <= i < |tokens| ==> quoted[i] == Quote(tokens[i])
  {
    if |tokens| == 0 then [] else [Quote(tokens[0])] + QuoteAll(tokens[1..])
  }

  /** The `collectionsList` string: the quoted names joined with " OR ". */
  function CollectionsList(collections: string): string
  {
    Join(QuoteAll(CollectionTokens(collections)), " OR ")
  }

  /** The first two characters of a clause, which tell the kinds of clause apart. */
  function Initials(clause: string): (char, char)
  {
    if |clause| < 2 then (' ', ' ') else (clause[0], clause[1])
  }

  /** The year filter: one bounded range when both years are truthy. */
  function YearClauses(options: SearchOptions): (clauses: seq<string>)
    ensures forall x :: x in clauses ==> Initials(x) == ('y', 'e')
  {
    if options.startYear != 0 && options.endYear != 0 then [YearClause(options.startYear, options.endYear)] else []
  }

  function CollectionClauses(options: SearchOptions): (clauses: seq<string>)
    ensures forall x :: x in clauses ==> Initials(x) == ('c', 'o')
  {
    if |options.collections| == 0 then []
    else
      var list := CollectionsList(options.collections);
      if |list| == 0 then [] else ["collection:(" + list + ")"]
  }

  /** Year, downloads and collection clauses: the part of the list before the flags. */
  function HeadClauses(options: SearchOptions): seq<string>
  {
    YearClauses(options) + [DownloadsClause(options)] + CollectionClauses(options)
  }

  function SubjectClauses(options: SearchOptions): (clauses: seq<string>)
    ensures forall x :: x in clauses ==> Initials(x) == ('-', 's')
  {
    if options.missingSubject then ["-subject:*"] else []
  }

  function CreatorClauses(options: SearchOptions): (clauses: seq<string>)
    ensures forall x :: x in clauses ==> Initials(x) == ('-', 'c')
  {
    if options.missingCreator then ["-creator:*"] else []
  }

  function LanguageClauses(options: SearchOptions): (clauses: seq<string>)
    ensures forall x :: x in clauses ==> Initials(x) == ('-', 'l')
  {
    if options.missingLanguage then ["-language:*"] else []
  }

  function PagesClauses(options: SearchOptions): (clauses: seq<string>)
    ensures forall x :: x in clauses ==> Initials(x) == ('p', 'a')
  {
    if options.isShort then ["pages:[1 TO 30]"] else []
  }

  /** The four flag filters, in the order subject, creator, language, pages. */
  function FlagClauses(options: SearchOptions): seq<string>
  {
    SubjectClauses(options) + CreatorClauses(options) + LanguageClauses(options) + PagesClauses(options)
  }

  function QueryTextClauses(options: SearchOptions): (clauses: seq<string>)
    ensures forall x :: x in clauses ==> Initials(x).0 == '('
  {
    if |options.query| > 0 then ["(" + options.query + ")"] else []
  }

  /** The clause list in its fixed order: year, downloads, collection, the four flags, free text, media type. */
  function QueryClauses(options: SearchOptions): seq<string>
  {
    HeadClauses(options) + FlagClauses(options) + QueryTextClauses(options) + [MediaTypeClause]
  }

  /** The `q` parameter. */
  function QueryString(options: SearchOptions): string
  {
    Join(QueryClauses(options), " AND ")
  }

  /** Builds `queryParts` by conditional pushes, as the search service does. */
  method BuildQueryParts(options: SearchOptions) returns (queryParts: seq<string>)
    ensures queryParts == QueryClauses(options)
  {
    queryParts := [];
    if options.startYear != 0 && options.endYear != 0 {
      queryParts := queryParts + [YearClause(options.startYear, options.endYear)];
    }
    assert queryParts == YearClauses(options);
    queryParts := queryParts + ["downloads:[0 TO " + IntToString(if options.maxDownloads != 0 then options.maxDownloads else 5000) + "]"];
    if |options.collections| > 0 {
      var collectionsList := Join(QuoteAll(TrimAndDrop(Split(options.collections, ','))), " OR ");
      if |collectionsList| > 0 {
        queryParts := queryParts + ["collection:(" + collectionsList + ")"];
      }
    }
    assert queryParts == HeadClauses(options);
    queryParts := PushFlags(options, queryParts);
    if |options.query| > 0 {
      queryParts := queryParts + ["(" + options.query + ")"];
    }
    assert queryParts == HeadClauses(options) + FlagClauses(options) + QueryTextClauses(options);
    queryParts := queryParts + ["mediatype:(texts)"];
  }

  /** The four flag pushes of the search service. */
  method PushFlags(options: SearchOptions, parts: seq<string>) returns (queryParts: seq<string>)
    ensures queryParts == parts + FlagClauses(options)
  {
    queryParts := parts;
    if options.missingSubject { queryParts := queryParts + ["-subject:*"]; }
    assert queryParts == parts + SubjectClauses(options);
    ghost var withSubject := queryParts;
    if options.missingCreator { queryParts := queryParts + ["-creator:*"]; }
    assert queryParts == withSubject + CreatorClauses(options);
    ghost var withCreator := queryParts;
    if options.missingLanguage { queryParts := queryParts + ["-language:*"]; }
    assert queryParts == withCreator + LanguageClauses(options);
    ghost var withLanguage := queryParts;
    if options.isShort { queryParts := queryParts + ["pages:[1 TO 30]"]; }
    assert queryParts == withLanguage + PagesClauses(options);
    AppendRegroup(parts, SubjectClauses(options), CreatorClauses(options), LanguageClauses(options));
    AppendAssoc(parts, SubjectClauses(options) + CreatorClauses(options) + LanguageClauses(options), PagesClauses(options));
  }

  /** A query parameter: name and (unencoded) value. */
  datatype Param = Param(name: string, value: string)

  /** The search request's parameters in order: `q`, `output`, `rows`, `page`, then one `fl[]` per field. */
  method SearchParams(options: SearchOptions) returns (params: seq<Param>)
    ensures |params| == 4 + |Fields|
    ensures params[..4] == [Param("q", QueryString(options)), Param("output", "json"), Param("rows", "100"), Param("page", "1")]
    ensures forall k :: 0 <= k < |Fields| ==> params[4 + k] == Param("fl[]", Fields[k])
  {
    var queryParts := BuildQueryParts(options);
    var q := Join(queryParts, " AND ");
    var head := [Param("q", q), Param("output", "json"), Param("rows", "100"), Param("page", "1")];
    params := AppendFields(head);
  }

  /** `fields.forEach(field => params.append('fl[]', field))`. */
  method AppendFields(head: seq<Param>) returns (params: seq<Param>)
    ensures |params| == |head| + |Fields|
    ensures params[..|head|] == head
    ensures forall k :: 0 <= k < |Fields| ==> params[|head| + k] == Param("fl[]", Fields[k])
  {
    params := head;
    for i := 0 to |Fields|
      invariant |params| == |head| + i
      invariant params[..|head|] == head
      invariant forall k :: 0 <= k < i ==> params[|head| + k] == Param("fl[]", Fields[k])
    {
      var field := Param("fl[]", Fields[i]);
      assert (params + [field])[..|head|] == params[..|head|];
      params := params + [field];
    }
  }

  // ---------------------------------------------------------------------------
  // Properties of the clause list

  /** Whether a clause is a year range. */
  predicate IsYearClause(clause: string)
  {
    "year:[" <= clause
  }

  /** A clause belongs to the list iff it belongs to one of its pieces. */
  lemma InQueryClauses(options: SearchOptions, x: string)
    ensures x in QueryClauses(options) <==>
              x in YearClauses(options) || x == DownloadsClause(options) || x in CollectionClauses(options)
              || x in SubjectClauses(options) || x in CreatorClauses(options) || x in LanguageClauses(options)
              || x in PagesClauses(options) || x in QueryTextClauses(options) || x == MediaTypeClause
  {
  }

  /** A year clause is present iff both years are truthy, and then it is the first clause, exactly `year:[s TO e]`. */
  lemma YearClauseIffBothYears(options: SearchOptions)
    ensures (exists i :: 0 <= i < |QueryClauses(options)| && IsYearClause(QueryClauses(options)[i]))
            <==> (options.startYear != 0 && options.endYear != 0)
    ensures options.startYear != 0 && options.endYear != 0 ==>
              QueryClauses(options)[0] == YearClause(options.startYear, options.endYear)
  {
    var parts := QueryClauses(options);
    forall i | 0 <= i < |parts| && IsYearClause(parts[i])
      ensures options.startYear != 0 && options.endYear != 0
    {
      YearClauseInitials(parts[i]);
      ClauseKind(options, parts[i]);
    }
    if options.startYear != 0 && options.endYear != 0 {
      YearClauseIsYear(options.startYear, options.endYear);
      assert IsYearClause(parts[0]);
    }
  }

  lemma YearClauseInitials(clause: string)
    requires IsYearClause(clause)
    ensures Initials(clause) == ('y', 'e')
  {
    assert clause[0] == clause[..6][0] && clause[1] == clause[..6][1];
  }

  /** The first two characters of a clause of the list tell which piece it comes from. */
  lemma ClauseKind(options: SearchOptions, x: string)
    requires x in QueryClauses(options)
    ensures Initials(x) == ('y', 'e') ==> x in YearClauses(options)
    ensures Initials(x) == ('-', 's') ==> x in SubjectClauses(options)
    ensures Initials(x) == ('-', 'c') ==> x in CreatorClauses(options)
    ensures Initials(x) == ('-', 'l') ==> x in LanguageClauses(options)
    ensures Initials(x) == ('p', 'a') ==> x in PagesClauses(options)
    ensures Initials(x).0 == '(' ==> x in QueryTextClauses(options)
  {
    InQueryClauses(options, x);
    PieceKind(options, x);
  }

  lemma PieceKind(options: SearchOptions, x: string)
    requires x in YearClauses(options) || x == DownloadsClause(options) || x in CollectionClauses(options)
             || x in SubjectClauses(options) || x in CreatorClauses(options) || x in LanguageClauses(options)
             || x in PagesClauses(options) || x in QueryTextClauses(options) || x == MediaTypeClause
    ensures Initials(x) == ('y', 'e') ==> x in YearClauses(options)
    ensures Initials(x) == ('-', 's') ==> x in SubjectClauses(options)
    ensures Initials(x) == ('-', 'c') ==> x in CreatorClauses(options)
    ensures Initials(x) == ('-', 'l') ==> x in LanguageClauses(options)
    ensures Initials(x) == ('p', 'a') ==> x in PagesClauses(options)
    ensures Initials(x).0 == '(' ==> x in QueryTextClauses(options)
  {
    assert Initials(MediaTypeClause) == ('m', 'e');
    assert Initials(DownloadsClause(options)) == ('d', 'o');
  }

  lemma YearClauseIsYear(startYear: int, endYear: int)
    ensures IsYearClause(YearClause(startYear, endYear))
  {
    var y := YearClause(startYear, endYear);
    assert y[..6] == "year:[";
  }

  /** The downloads clause always follows the optional year clause, with the ceiling `maxDownloads || 5000`. */
  lemma DownloadsClauseAlways(options: SearchOptions)
    ensures var i := |YearClauses(options)|;
            i < |QueryClauses(options)|
            && QueryClauses(options)[i] == "downloads:[0 TO " + IntToString(DownloadsCeiling(options)) + "]"
    ensures DownloadsCeiling(options) == 5000 <==> options.maxDownloads == 0 || options.maxDownloads == 5000
  {
  }

  /** A collection name as it reaches the query: non-empty, no comma, no whitespace at either end. */
  predicate CleanToken(token: string)
  {
    |token| > 0 && ',' !in token && !IsJsWhitespace(token[0]) && !IsJsWhitespace(token[|token| - 1])
  }

  /** Trimming a comma-free piece keeps it comma-free and clears both ends. */
  lemma TrimmedPieceClean(piece: string)
    requires ',' !in piece
    ensures |Trim(piece)| > 0 ==> CleanToken(Trim(piece))
  {
    TrimIsInfix(piece);
    var t := Trim(piece);
    var i, j :| 0 <= i <= j <= |piece| && t == piece[i..j];
    forall k | 0 <= k < |t| ensures t[k] != ',' {
      assert t[k] == piece[i + k];
    }
  }

  lemma {:induction false} TrimAndDropShape(pieces: seq<string>)
    requires forall i :: 0 <= i < |pieces| ==> ',' !in pieces[i]
    ensures forall i :: 0 <= i < |TrimAndDrop(pieces)| ==> CleanToken(TrimAndDrop(pieces)[i])
  {
    if |pieces| > 0 {
      assert forall i :: 0 <= i < |pieces| - 1 ==> pieces[1..][i] == pieces[i + 1];
      TrimAndDropShape(pieces[1..]);
      TrimmedPieceClean(pieces[0]);
      var t := Trim(pieces[0]);
      var head := if |t| == 0 then [] else [t];
      var rest := TrimAndDrop(pieces[1..]);
      assert TrimAndDrop(pieces) == head + rest;
      forall i | 0 <= i < |head + rest| ensures CleanToken((head + rest)[i]) {
        if i >= |head| {
          assert (head + rest)[i] == rest[i - |head|];
        }
      }
    }
  }

  /** A single piece gives its trim, unless the trim is empty. */
  lemma TrimAndDropSingle(piece: string)
    ensures TrimAndDrop([piece]) == if |Trim(piece)| == 0 then [] else [Trim(piece)]
  {
    assert [piece][1..] == [];
  }

  /** Trimming and dropping works piece by piece: the tokens of a concatenation are the tokens of its parts, in order. */
  lemma {:induction false} TrimAndDropAppend(a: seq<string>, b: seq<string>)
    ensures TrimAndDrop(a + b) == TrimAndDrop(a) + TrimAndDrop(b)
    decreases |a|
  {
    if |a| == 0 {
      assert a + b == b;
    } else {
      assert (a + b)[0] == a[0];
      assert (a + b)[1..] == a[1..] + b;
      TrimAndDropAppend(a[1..], b);
      var t := Trim(a[0]);
      var head := if |t| == 0 then [] else [t];
      AppendAssoc(head, TrimAndDrop(a[1..]), TrimAndDrop(b));
    }
  }

  /** A token survives iff it is the non-empty trim of some piece. */
  lemma {:induction false} TrimAndDropMembers(pieces: seq<string>, token: string)
    ensures token in TrimAndDrop(pieces) <==>
              |token| > 0 && exists i :: 0 <= i < |pieces| && Trim(pieces[i]) == token
    decreases |pieces|
  {
    if |pieces| > 0 {
      TrimAndDropMembers(pieces[1..], token);
      var t := Trim(pieces[0]);
      var head := if |t| == 0 then [] else [t];
      assert TrimAndDrop(pieces) == head + TrimAndDrop(pieces[1..]);
      if exists i :: 0 <= i < |pieces| && Trim(pieces[i]) == token {
        var i :| 0 <= i < |pieces| && Trim(pieces[i]) == token;
        if i > 0 {
          assert Trim(pieces[1..][i - 1]) == token;
        }
      }
      if exists i :: 0 <= i < |pieces[1..]| && Trim(pieces[1..][i]) == token {
        var i :| 0 <= i < |pieces[1..]| && Trim(pieces[1..][i]) == token;
        assert Trim(pieces[i + 1]) == token;
      }
    }
  }

  /** Shape of the collection names: none is empty, none has whitespace at its ends, none holds a comma. */
  lemma CollectionTokensShape(collections: string)
    ensures forall i :: 0 <= i < |CollectionTokens(collections)| ==> CleanToken(CollectionTokens(collections)[i])
  {
    SplitPiecesFree(collections, ',');
    TrimAndDropShape(Split(collections, ','));
  }

  /** Whether every character of `s` is the separator `c` or whitespace. */
  predicate Blank(s: string, c: char)
  {
    forall k :: 0 <= k < |s| ==> s[k] == c || IsJsWhitespace(s[k])
  }

  predicate AllPiecesBlank(pieces: seq<string>)
  {
    forall i :: 0 <= i < |pieces| ==> AllWhitespace(pieces[i])
  }

  lemma AllPiecesBlankCons(x: string, pieces: seq<string>)
    ensures AllPiecesBlank([x] + pieces) <==> AllWhitespace(x) && AllPiecesBlank(pieces)
  {
    var all := [x] + pieces;
    assert all[0] == x;
    assert forall i :: 0 <= i < |pieces| ==> all[i + 1] == pieces[i];
  }

  lemma AllWhitespaceCons(ch: char, s: string)
    ensures AllWhitespace([ch] + s) <==> IsJsWhitespace(ch) && AllWhitespace(s)
  {
    var all := [ch] + s;
    assert all[0] == ch;
    assert forall k :: 0 <= k < |s| ==> all[k + 1] == s[k];
  }

  /** The pieces of a split are all blank exactly when the string is made of separators and whitespace. */
  lemma {:induction false} SplitAllBlank(s: string, c: char)
    ensures AllPiecesBlank(Split(s, c)) <==> Blank(s, c)
    decreases |s|
  {
    if |s| > 0 {
      SplitAllBlank(s[1..], c);
      var rest := Split(s[1..], c);
      assert Blank(s, c) <==> (s[0] == c || IsJsWhitespace(s[0])) && Blank(s[1..], c) by {
        assert forall k :: 0 < k < |s| ==> s[k] == s[1..][k - 1];
      }
      if s[0] == c {
        assert Split(s, c) == [""] + rest;
        AllPiecesBlankCons("", rest);
      } else {
        assert Split(s, c) == [[s[0]] + rest[0]] + rest[1..];
        AllPiecesBlankCons([s[0]] + rest[0], rest[1..]);
        AllWhitespaceCons(s[0], rest[0]);
        assert rest == [rest[0]] + rest[1..];
        AllPiecesBlankCons(rest[0], rest[1..]);
      }
    }
  }

  lemma {:induction false} TrimAndDropEmpty(pieces: seq<string>)
    ensures TrimAndDrop(pieces) == [] <==> AllPiecesBlank(pieces)
  {
    if |pieces| > 0 {
      TrimAndDropEmpty(pieces[1..]);
      TrimIsInfix(pieces[0]);
      assert pieces == [pieces[0]] + pieces[1..];
      AllPiecesBlankCons(pieces[0], pieces[1..]);
    }
  }

  /** No collection clause is emitted exactly when the filter holds nothing but commas and whitespace. */
  lemma NoCollectionClauseIffBlank(options: SearchOptions)
    ensures CollectionClauses(options) == [] <==> Blank(options.collections, ',')
    ensures CollectionClauses(options) != [] ==>
              CollectionClauses(options) == ["collection:(" + Join(QuoteAll(CollectionTokens(options.collections)), " OR ") + ")"]
  {
    var tokens := CollectionTokens(options.collections);
    SplitAllBlank(options.collections, ',');
    TrimAndDropEmpty(Split(options.collections, ','));
    if tokens != [] {
      assert QuoteAll(tokens)[0] == Quote(tokens[0]);
      assert |Join(QuoteAll(tokens), " OR ")| > 0;
    }
  }

  /** The filter `"americana, toronto"` gives `collection:("americana" OR "toronto")`. */
  lemma CollectionExample()
    ensures CollectionsList("americana, toronto") == Quote("americana") + " OR " + Quote("toronto")
  {
    CollectionExampleSplit();
    CollectionExampleTrim();
    var tokens := ["americana", "toronto"];
    assert TrimAndDrop(["americana", " toronto"]) == tokens by {
      assert TrimAndDrop([" toronto"]) == ["toronto"];
    }
    assert QuoteAll(tokens) == [Quote("americana"), Quote("toronto")];
  }

  lemma CollectionExampleSplit()
    ensures Split("americana, toronto", ',') == ["americana", " toronto"]
  {
    assert "americana, toronto" == "americana" + "," + " toronto";
    SplitOnce("americana", " toronto", ',');
  }

  lemma CollectionExampleTrim()
    ensures Trim("americana") == "americana" && Trim(" toronto") == "toronto"
  {
    assert TrimStart(" toronto") == TrimStart("toronto") == "toronto";
    assert TrimEnd("toronto") == "toronto";
    assert TrimEnd("americana") == "americana";
  }

  /** Splitting `a + [c] + b` where `a` and `b` hold no `c` gives `[a, b]`. */
  lemma {:induction false} SplitOnce(a: string, b: string, c: char)
    requires c !in a && c !in b
    ensures Split(a + [c] + b, c) == [a, b]
    decreases |a|
  {
    if |a| == 0 {
      assert a + [c] + b == [c] + b;
      SplitNone(b, c);
    } else {
      SplitOnce(a[1..], b, c);
      assert (a + [c] + b)[1..] == a[1..] + [c] + b;
      assert [a[0]] + a[1..] == a;
    }
  }

  /** A string without the separator splits into itself. */
  lemma {:induction false} SplitNone(s: string, c: char)
    requires c !in s
    ensures Split(s, c) == [s]
    decreases |s|
  {
    if |s| > 0 {
      SplitNone(s[1..], c);
      assert [s[0]] + s[1..] == s;
    }
  }

  /** Each flag clause appears iff its flag is set. */
  lemma FlagClausesIff(options: SearchOptions)
    ensures "-subject:*" in QueryClauses(options) <==> options.missingSubject
    ensures "-creator:*" in QueryClauses(options) <==> options.missingCreator
    ensures "-language:*" in QueryClauses(options) <==> options.missingLanguage
    ensures "pages:[1 TO 30]" in QueryClauses(options) <==> options.isShort
  {
    FlagClauseIff(options, "-subject:*");
    FlagClauseIff(options, "-creator:*");
    FlagClauseIff(options, "-language:*");
    FlagClauseIff(options, "pages:[1 TO 30]");
    FlagMembership(options);
  }

  lemma FlagMembership(options: SearchOptions)
    ensures "-subject:*" in FlagClauses(options) <==> options.missingSubject
    ensures "-creator:*" in FlagClauses(options) <==> options.missingCreator
    ensures "-language:*" in FlagClauses(options) <==> options.missingLanguage
    ensures "pages:[1 TO 30]" in FlagClauses(options) <==> options.isShort
  {
    assert Initials("-subject:*") == ('-', 's') && Initials("-creator:*") == ('-', 'c');
    assert Initials("-language:*") == ('-', 'l') && Initials("pages:[1 TO 30]") == ('p', 'a');
  }

  lemma FlagClauseIff(options: SearchOptions, x: string)
    requires x in {"-subject:*", "-creator:*", "-language:*", "pages:[1 TO 30]"}
    ensures x in QueryClauses(options) <==> x in FlagClauses(options)
  {
    if x in QueryClauses(options) {
      ClauseKind(options, x);
      assert Initials("-subject:*") == ('-', 's') && Initials("-creator:*") == ('-', 'c');
      assert Initials("-language:*") == ('-', 'l') && Initials("pages:[1 TO 30]") == ('p', 'a');
    }
  }

  /**
   * Wherever a flag is set, its clause sits after the collection clause and after the clauses of
   * the set flags that come before it in the order subject, creator, language, pages.
   */
  lemma FlagClausePositions(options: SearchOptions)
    ensures var parts := QueryClauses(options);
            var base := |YearClauses(options)| + 1 + |CollectionClauses(options)|;
            var s, c, l := |SubjectClauses(options)|, |CreatorClauses(options)|, |LanguageClauses(options)|;
            base + s + c + l + |PagesClauses(options)| < |parts|
            && (options.missingSubject ==> parts[base] == "-subject:*")
            && (options.missingCreator ==> parts[base + s] == "-creator:*")
            && (options.missingLanguage ==> parts[base + s + c] == "-language:*")
            && (options.isShort ==> parts[base + s + c + l] == "pages:[1 TO 30]")
  {
    var subject, creator, language, pages :=
      SubjectClauses(options), CreatorClauses(options), LanguageClauses(options), PagesClauses(options);
    IndexInMiddle(HeadClauses(options), FlagClauses(options), QueryTextClauses(options), [MediaTypeClause]);
    FlagsAt(subject, creator, language, pages);
  }

  /** Where the first element of each of four concatenated pieces sits. */
  lemma FlagsAt(a: seq<string>, b: seq<string>, c: seq<string>, d: seq<string>)
    ensures var all := a + b + c + d;
            (|a| > 0 ==> all[0] == a[0])
            && (|b| > 0 ==> all[|a|] == b[0])
            && (|c| > 0 ==> all[|a| + |b|] == c[0])
            && (|d| > 0 ==> all[|a| + |b| + |c|] == d[0])
  {
  }

  /** With every flag set, the four flag clauses follow the collection clause in the order subject, creator, language, pages. */
  lemma FlagClauseOrder(options: SearchOptions)
    requires options.missingSubject && options.missingCreator && options.missingLanguage && options.isShort
    ensures var parts := QueryClauses(options);
            var i := |YearClauses(options)| + 1 + |CollectionClauses(options)|;
            i + 4 < |parts|
            && parts[i] == "-subject:*" && parts[i + 1] == "-creator:*"
            && parts[i + 2] == "-language:*" && parts[i + 3] == "pages:[1 TO 30]"
  {
    AllFlagsSet(options);
    IndexInMiddle(HeadClauses(options), FlagClauses(options), QueryTextClauses(options), [MediaTypeClause]);
  }

  /** With every flag set, the flag clauses are the four filters in order. */
  lemma AllFlagsSet(options: SearchOptions)
    requires options.missingSubject && options.missingCreator && options.missingLanguage && options.isShort
    ensures var flags := FlagClauses(options);
            |flags| == 4 && flags[0] == "-subject:*" && flags[1] == "-creator:*"
            && flags[2] == "-language:*" && flags[3] == "pages:[1 TO 30]"
  {
  }

  /** The free text is appended verbatim in parentheses iff it is non-empty. */
  lemma QueryTextIff(options: SearchOptions)
    ensures "(" + options.query + ")" in QueryClauses(options) <==> |options.query| > 0
  {
    var t := "(" + options.query + ")";
    if t in QueryClauses(options) {
      ClauseKind(options, t);
      assert Initials(t).0 == '(';
    }
  }

  /** Between 2 and 9 clauses; the last is always the media-type filter. */
  lemma ClauseCountAndLast(options: SearchOptions)
    ensures |QueryClauses(options)| == 2 + |YearClauses(options)| + |CollectionClauses(options)|
                                     + |SubjectClauses(options)| + |CreatorClauses(options)|
                                     + |LanguageClauses(options)| + |PagesClauses(options)|
                                     + |QueryTextClauses(options)|
    ensures 2 <= |QueryClauses(options)| <= 9
    ensures QueryClauses(options)[|QueryClauses(options)| - 1] == MediaTypeClause
  {
  }

  lemma {:induction false} JoinEndsWithLast(parts: seq<string>, sep: string)
    requires |parts| >= 2
    ensures var j := Join(parts, sep);
            var tail := sep + parts[|parts| - 1];
            |tail| <= |j| && j[|j| - |tail|..] == tail
    decreases |parts|
  {
    var j := Join(parts, sep);
    var tail := sep + parts[|parts| - 1];
    if |parts| > 2 {
      JoinEndsWithLast(parts[1..], sep);
      var r := Join(parts[1..], sep);
      assert j == parts[0] + sep + r;
      assert j[|j| - |tail|..] == r[|r| - |tail|..];
    } else {
      assert j == parts[0] + sep + parts[1];
      assert j[|j| - |tail|..] == tail;
    }
  }

  /** `q` always ends with ` AND mediatype:(texts)`. */
  lemma QueryStringEndsWithMediaType(options: SearchOptions)
    ensures var q := QueryString(options);
            |q| >= |" AND " + MediaTypeClause| && q[|q| - |" AND " + MediaTypeClause|..] == " AND " + MediaTypeClause
  {
    ClauseCountAndLast(options);
    JoinEndsWithLast(QueryClauses(options), " AND ");
  }

  /** `q` starts with `year:[` iff both years are truthy; otherwise it starts with the downloads clause. */
  lemma QueryStringStartsWithYearIff(options: SearchOptions)
    ensures "year:[" <= QueryString(options) <==> options.startYear != 0 && options.endYear != 0
  {
    var parts := QueryClauses(options);
    ClauseCountAndLast(options);
    var q := QueryString(options);
    assert q == parts[0] + " AND " + Join(parts[1..], " AND ");
    if options.startYear != 0 && options.endYear != 0 {
      YearClauseIffBothYears(options);
      YearClauseIsYear(options.startYear, options.endYear);
      assert parts[0][..6] == "year:[";
      assert q[..6] == parts[0][..6];
    } else {
      assert parts[0] == DownloadsClause(options);
      assert q[0] == 'd';
    }
  }
}

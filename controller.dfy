/**
 * UrlController: loads clinical-trial report pages into the vector store.
 * For each trial id it deletes the rows already filed under the trial's
 * key, fetches and reads the report page, tags the document with a file
 * name derived from the URL, preprocesses it, splits it into chunks and
 * adds the chunks to the store.
 *
 * The page fetch, the token splitter, the embedding model, the clock and
 * the list of trial ids read from the curation database are parameters.
 */
module Controller {
  import opened Wrappers
  import opened JString
  import opened Documents
  import opened Page
  import opened Reader
  import opened Preprocessor
  import opened Repository
  import opened VectorStore
  import opened JavaUrl

  const TrialHost: string := "scge.mcw.edu"
  const ReportDir: string := "/report/clinicalTrials"
  const TrialDir: string := "/platform/data" + ReportDir
  const TrialUrlPrefix: string := "https://" + TrialHost + TrialDir + "/"
  const TrialKeyPrefix: string := "CLINICAL TRIAL: "

  function TrialUrl(nctId: string): string { TrialUrlPrefix + nctId }

  /** The path of a trial's report URL. */
  function TrialPath(nctId: string): string { TrialDir + "/" + nctId }

  /** The file name the rows of a trial are looked up under. */
  function TrialKey(nctId: string): string { TrialKeyPrefix + nctId }

  // ---------------------------------------------------------------------------
  // extractFilenameFromUrl

  /** `replaceAll("\\.", "_")` */
  function ReplaceDots(s: string): (r: string)
    ensures |r| == |s| && '.' !in r
    ensures forall i :: 0 <= i < |s| && s[i] != '.' ==> r[i] == s[i]
  {
    seq(|s|, i requires 0 <= i < |s| => if s[i] == '.' then '_' else s[i])
  }

  predicate IsClinicalTrialUrl(url: string) {
    Contains(url, "/clinicalTrials/report/") || Contains(url, "/report/clinicalTrials/")
  }

  predicate OnlySlashes(p: string) {
    forall i :: 0 <= i < |p| ==> p[i] == '/'
  }

  /** The base name of a URL: the last piece of `path.split("/")` when the
      path is neither empty nor "/", else the host with dots as underscores.
      A path of two or more slashes splits into no piece at all, and taking
      the last piece then throws ArrayIndexOutOfBoundsException (Failure). */
  function BaseName(u: Url): (r: Result<string, string>)
    ensures r.Failure? <==> |u.path| >= 2 && OnlySlashes(u.path)
    ensures r.Success? && !OnlySlashes(u.path) ==> r.value != [] && '/' !in r.value
    ensures r.Success? && OnlySlashes(u.path) ==> r.value == ReplaceDots(u.host)
  {
    if u.path != "" && u.path != "/" then
      SplitEmptyIff(u.path, '/');
      var parts := Split(u.path, '/');
      if parts == [] then Failure("ArrayIndexOutOfBoundsException")
      else
        var last := parts[|parts| - 1];
        assert '/' !in last by { SplitPiecesNoSeparator(u.path, '/', |parts| - 1); }
        Success(if last != "" then last else ReplaceDots(u.host))
    else
      assert u.path == "/" ==> OnlySlashes(u.path);
      Success(ReplaceDots(u.host))
  }

  /** `extractFilenameFromUrl`: `CLINICAL TRIAL: <base name>` for a
      clinical-trial report URL, `<base name>:<url>` for any other, and
      `webpage_<millis>:<url>` when the URL does not parse. */
  function ExtractFilenameFromUrl(url: string, millis: int): Result<string, string> {

    match ParseUrl(url)
    case None => Success("webpage_" + DecimalString(millis) + ":" + url)
    case Some(u) =>
      match BaseName(u)
      case Failure(e) => Failure(e)
      case Success(name) =>
        Success(if IsClinicalTrialUrl(url) then TrialKeyPrefix + name else name + ":" + url)
  }

  /** The three outcomes of `extractFilenameFromUrl`: an unparsable URL
      gives `webpage_<millis>:<url>`; a parsed one fails exactly when its
      path is two or more slashes only, and otherwise gives the base name
      behind the trial prefix (report URLs) or before `:<url>` (any other),
      that base name being the last path segment or, for an empty or
      all-slash path, the host with dots as underscores. */
  lemma FileNameOutcomes(url: string, millis: int)
    ensures ParseUrl(url).None? ==>
      ExtractFilenameFromUrl(url, millis) == Success("webpage_" + DecimalString(millis) + ":" + url)
    ensures ParseUrl(url).Some? ==>
      var u := ParseUrl(url).value;
      var r := ExtractFilenameFromUrl(url, millis);
      && (r.Failure? <==> |u.path| >= 2 && OnlySlashes(u.path))
      && (r.Success? ==> exists base ::
            && (if OnlySlashes(u.path) then base == ReplaceDots(u.host) else base != [] && '/' !in base)
            && r.value == if IsClinicalTrialUrl(url) then TrialKeyPrefix + base else base + ":" + url)
  {
    if ParseUrl(url).Some? {
      var u := ParseUrl(url).value;
      var b := BaseName(u);
      if b.Success? {
        var base := b.value;
        assert (if OnlySlashes(u.path) then base == ReplaceDots(u.host) else base != [] && '/' !in base);
      }
    }
  }

  /** A trial id as the loader builds URLs from it: trimmed, not empty, and
      free of the characters that end a path or a path segment. */
  predicate IsPlainId(nctId: string) {
    nctId != [] && IsTrimmed(nctId) && '/' !in nctId && '?' !in nctId && '#' !in nctId
  }

  /** The report URL of a plain id parses into the https protocol, the host
      and the report path ending in the id. */
  lemma TrialUrlParses(nctId: string)
    requires IsPlainId(nctId)
    ensures ParseUrl(TrialUrl(nctId)) == Some(Url("https", TrialHost, "", TrialPath(nctId)))
  {
    var path := TrialPath(nctId);
    var dir := TrialDir + "/";
    assert TrialUrl(nctId) == "https://" + TrialHost + path;
    assert forall i :: 0 <= i < |path| ==> path[i] !in PathEnd by {
      assert forall i :: 0 <= i < |dir| ==> path[i] == dir[i];
      assert forall i :: |dir| <= i < |path| ==> path[i] == nctId[i - |dir|];
    }
    assert path[|path| - 1] == nctId[|nctId| - 1];
    ParseHttps(TrialHost, path);
  }

  /** A path `dir/id`, with an id that is not empty and holds no slash,
      has the id as its base name. */
  lemma BaseNameIsLastSegment(u: Url, dir: string, id: string)
    requires u.path == dir + "/" + id
    requires id != [] && '/' !in id
    ensures BaseName(u) == Success(id)
  {
    var path := u.path;
    assert path[|dir|] == '/';
    SplitAllConcat(dir, id, '/');
    SplitAllNoSep(id, '/');
    var parts := SplitAll(path, '/');
    assert parts[|parts| - 1] == id;
    assert Split(path, '/') == parts;
  }

  lemma TrialUrlIsClinical(nctId: string)
    ensures IsClinicalTrialUrl(TrialUrl(nctId))
  {
    assert TrialUrl(nctId) == ("https://" + TrialHost + "/platform/data") + (ReportDir + "/") + nctId;
    assert ReportDir + "/" == "/report/clinicalTrials/";
    ContainsMiddle("https://" + TrialHost + "/platform/data", ReportDir + "/", nctId);
  }

  /** The file name the chunks of a plain id get is the key its old rows
      are looked up under. */
  lemma TrialFileName(nctId: string, millis: int)
    requires IsPlainId(nctId)
    ensures ExtractFilenameFromUrl(TrialUrl(nctId), millis) == Success(TrialKey(nctId))
  {
    TrialUrlParses(nctId);
    BaseNameIsLastSegment(Url("https", TrialHost, "", TrialPath(nctId)), TrialDir, nctId);
    TrialUrlIsClinical(nctId);
  }

  // ---------------------------------------------------------------------------
  // processUrlInternal

  /** The stream map that copies each document with `filename` set. */
  function WithFileName(docs: seq<Document>, name: string): (r: seq<Document>)
    ensures |r| == |docs|
    ensures forall i :: 0 <= i < |docs| ==>
      r[i] == Document(docs[i].content, docs[i].metadata["filename" := Str(name)])
  {
    seq(|docs|, i requires 0 <= i < |docs| => Document(docs[i].content, docs[i].metadata["filename" := Str(name)]))
  }

  /** The pieces the splitter makes of one document, each with the
      document's metadata. */
  function Pieces(d: Document, chunker: string -> seq<string>): (r: seq<Document>)
    ensures |r| == |chunker(d.content)|
    ensures forall i :: 0 <= i < |r| ==> r[i].metadata == d.metadata
  {
    var ps := chunker(d.content);
    seq(|ps|, i requires 0 <= i < |ps| => Document(ps[i], d.metadata))
  }

  /** `splitter.apply(docs)`: the pieces of every document, in order. */
  function Chunks(docs: seq<Document>, chunker: string -> seq<string>): seq<Document> {
    if docs == [] then [] else Pieces(docs[0], chunker) + Chunks(docs[1..], chunker)
  }

  predicate FiledUnder(d: Document, name: string) {
    "filename" in d.metadata && d.metadata["filename"] == Str(name)
  }

  /** Every chunk is filed under `name` when every input document is. */
  lemma {:induction false} ChunksKeepFileName(docs: seq<Document>, chunker: string -> seq<string>, name: string)
    requires forall i :: 0 <= i < |docs| ==> FiledUnder(docs[i], name)
    ensures forall j :: 0 <= j < |Chunks(docs, chunker)| ==> FiledUnder(Chunks(docs, chunker)[j], name)
  {
    if docs != [] {
      ChunksKeepFileName(docs[1..], chunker, name);
      var a: seq<Document> := Pieces(docs[0], chunker);
      var b: seq<Document> := Chunks(docs[1..], chunker);
      forall j | 0 <= j < |a + b|
        ensures FiledUnder((a + b)[j], name)
      {
        if j >= |a| { assert (a + b)[j] == b[j - |a|]; }
      }
    }
  }

  /** The documents `processUrlInternal` hands to the splitter, or None when
      it gives up before: nothing fetched, a file name that cannot be
      derived, or nothing left after preprocessing. */
  function Prepared(fetched: seq<Document>, url: string, millis: int): Option<seq<Document>> {
    if fetched == [] then None
    else
      match ExtractFilenameFromUrl(url, millis)
      case Failure(_) => None
      case Success(name) =>
        var pre := Preprocessed(WithFileName(fetched, name));
        if pre == [] then None else Some(pre)
  }

  /** The chunks `processUrlInternal` adds to the store, or None. */
  function Chunked(fetched: seq<Document>, url: string, millis: int, chunker: string -> seq<string>): Option<seq<Document>> {
    match Prepared(fetched, url, millis)
    case None => None
    case Some(pre) => Some(Chunks(pre, chunker))
  }

  lemma SurvivorsOfOne(d: Document, clean: string -> string)
    ensures Survivors([d], clean) == if JavaLength(clean(d.content)) >= 50 then [Document(clean(d.content), d.metadata)] else []
  {
    assert [d][..0] == [];
  }

  /** One fetched document survives preprocessing exactly when its cleaned
      text is at least 50 UTF-16 units long; it then keeps its metadata with
      the derived file name added. */
  lemma PreparedShape(d: Document, url: string, millis: int)
    requires ExtractFilenameFromUrl(url, millis).Success?
    ensures var cleaned := CleanText(d.content);
      var md := d.metadata["filename" := Str(ExtractFilenameFromUrl(url, millis).value)];
      Prepared([d], url, millis) == if JavaLength(cleaned) >= 50 then Some([Document(cleaned, md)]) else None
  {
    var name := ExtractFilenameFromUrl(url, millis).value;
    var one := Document(d.content, d.metadata["filename" := Str(name)]);
    assert WithFileName([d], name) == [one];
    SurvivorsOfOne(one, CleanText);
    assert Preprocessed([one]) == Survivors([one], CleanText);
  }

  /** Every chunk is filed under the file name derived from the URL. */
  lemma ChunksFiledUnder(fetched: seq<Document>, url: string, millis: int, chunker: string -> seq<string>)
    requires Chunked(fetched, url, millis, chunker).Some?
    ensures ExtractFilenameFromUrl(url, millis).Success?
    ensures var chunks := Chunked(fetched, url, millis, chunker).value;
      forall j :: 0 <= j < |chunks| ==> FileNameOf(chunks[j]) == ExtractFilenameFromUrl(url, millis).value
  {
    var name := ExtractFilenameFromUrl(url, millis).value;
    var tagged := WithFileName(fetched, name);
    var pre := Prepared(fetched, url, millis).value;
    assert pre == Survivors(tagged, CleanText);
    forall k | 0 <= k < |pre|
      ensures FiledUnder(pre[k], name)
    {
      SurvivorsKeepMetadata(tagged, CleanText, k);
    }
    ChunksKeepFileName(pre, chunker, name);
  }

  // ---------------------------------------------------------------------------
  // The table around one reload.

  /** The rows not filed under `key`, in order. */
  function WithoutFileName(rows: seq<Row>, key: string): (r: seq<Row>)
    ensures |r| <= |rows|
    ensures forall x :: x in r <==> x in rows && x.fileName != key
  {
    if rows == [] then []
    else
      assert forall x :: x in rows <==> x == rows[0] || x in rows[1..];
      (if rows[0].fileName != key then [rows[0]] else []) + WithoutFileName(rows[1..], key)
  }

  /** The rows whose identity is not in `ids`, in order. */
  function WithoutIds(rows: seq<Row>, ids: set<int>): (r: seq<Row>)
    ensures forall x :: x in r <==> x in rows && x.id !in ids
  {
    if rows == [] then []
    else
      assert forall x :: x in rows <==> x == rows[0] || x in rows[1..];
      (if rows[0].id !in ids then [rows[0]] else []) + WithoutIds(rows[1..], ids)
  }

  lemma {:induction false} WithoutNoIds(rows: seq<Row>)
    ensures WithoutIds(rows, {}) == rows
  {
    if rows != [] {
      WithoutNoIds(rows[1..]);
      assert rows == [rows[0]] + rows[1..];
    }
  }

  function IdsOf(rows: seq<Row>): set<int> {
    set i | 0 <= i < |rows| :: rows[i].id
  }

  /** Deleting one more identity. */
  lemma {:induction false} WithoutIdsStep(rows: seq<Row>, ids: set<int>, id: int)
    ensures WithoutId(WithoutIds(rows, ids), id) == WithoutIds(rows, ids + {id})
  {
    if rows != [] {
      WithoutIdsStep(rows[1..], ids, id);
      var head := if rows[0].id !in ids then [rows[0]] else [];
      var rest := WithoutIds(rows[1..], ids);
      assert WithoutIds(rows, ids) == head + rest;
      if head == [] {
        assert head + rest == rest;
      } else {
        assert (head + rest)[0] == rows[0] && (head + rest)[1..] == rest;
      }
    }
  }

  /** Removing the identities of exactly the rows filed under `key` removes
      exactly those rows. */
  lemma {:induction false} WithoutIdsIsWithoutFileName(rows: seq<Row>, ids: set<int>, key: string)
    requires forall x :: x in rows ==> (x.id in ids <==> x.fileName == key)
    ensures WithoutIds(rows, ids) == WithoutFileName(rows, key)
  {
    if rows != [] {
      assert rows[0] in rows;
      assert forall x :: x in rows[1..] ==> x in rows;
      WithoutIdsIsWithoutFileName(rows[1..], ids, key);
    }
  }

  /** Identities are unique in a table whose identities increase. */
  lemma SameIdSameRow(rows: seq<Row>, x: Row, y: Row)
    requires IdsIncreasing(rows) && x in rows && y in rows && x.id == y.id
    ensures x == y
  {
    var a :| 0 <= a < |rows| && rows[a] == x;
    var b :| 0 <= b < |rows| && rows[b] == y;
    assert a == b;
  }

  /** A row's identity belongs to the rows filed under `key` exactly when
      the row itself is filed under `key`. */
  lemma IdsOfFileName(rows: seq<Row>, key: string)
    requires IdsIncreasing(rows)
    ensures forall x :: x in rows ==> (x.id in IdsOf(FindByFileName(rows, key)) <==> x.fileName == key)
  {
    var existing := FindByFileName(rows, key);
    forall x | x in rows
      ensures x.id in IdsOf(existing) <==> x.fileName == key
    {
      if x.fileName == key {
        var j :| 0 <= j < |existing| && existing[j] == x;
      }
      forall j | 0 <= j < |existing| && existing[j].id == x.id
        ensures x.fileName == key
      {
        SameIdSameRow(rows, x, existing[j]);
      }
    }
  }

  lemma {:induction false} FindByFileNameAppend(a: seq<Row>, b: seq<Row>, key: string)
    ensures FindByFileName(a + b, key) == FindByFileName(a, key) + FindByFileName(b, key)
  {
    if a != [] {
      assert (a + b)[0] == a[0] && (a + b)[1..] == a[1..] + b;
      FindByFileNameAppend(a[1..], b, key);
      var head := if a[0].fileName == key then [a[0]] else [];
      ConcatAssoc(head, FindByFileName(a[1..], key), FindByFileName(b, key));
    } else {
      assert a + b == b;
    }
  }

  lemma {:induction false} FindWithoutFileName(rows: seq<Row>, key: string, other: string)
    ensures FindByFileName(WithoutFileName(rows, key), other) == if other == key then [] else FindByFileName(rows, other)
  {
    if rows != [] {
      FindWithoutFileName(rows[1..], key, other);
      var head := if rows[0].fileName != key then [rows[0]] else [];
      FindByFileNameAppend(head, WithoutFileName(rows[1..], key), other);
    }
  }

  lemma {:induction false} FindAllOrNone(rows: seq<Row>, key: string)
    ensures (forall j :: 0 <= j < |rows| ==> rows[j].fileName == key) ==> FindByFileName(rows, key) == rows
    ensures (forall j :: 0 <= j < |rows| ==> rows[j].fileName != key) ==> FindByFileName(rows, key) == []
  {
    if rows != [] {
      FindAllOrNone(rows[1..], key);
    }
  }

  /** After a reload that files `added` under `key`, the rows under `key`
      are exactly `added`. */
  lemma ReloadedOwnKey(rows: seq<Row>, key: string, added: seq<Row>)
    requires forall j :: 0 <= j < |added| ==> added[j].fileName == key
    ensures FindByFileName(WithoutFileName(rows, key) + added, key) == added
  {
    FindByFileNameAppend(WithoutFileName(rows, key), added, key);
    FindWithoutFileName(rows, key, key);
    FindAllOrNone(added, key);
    ConcatEmpty(added);
  }

  /** A reload of `key` leaves the rows under any other name that none of
      the added rows carries as they were. */
  lemma ReloadedOtherKey(rows: seq<Row>, key: string, added: seq<Row>, other: string)
    requires other != key
    requires forall j :: 0 <= j < |added| ==> added[j].fileName != other
    ensures FindByFileName(WithoutFileName(rows, key) + added, other) == FindByFileName(rows, other)
  {
    FindByFileNameAppend(WithoutFileName(rows, key), added, other);
    FindWithoutFileName(rows, key, other);
    FindAllOrNone(added, other);
    ConcatEmpty(FindByFileName(rows, other));
  }

  /** The rows one `processUrlInternal` call adds: one per chunk up to the
      first the embedding model fails on; none when it gave up earlier. */
  function Added(chunked: Option<seq<Document>>, embed: string -> Option<Embedding>, firstId: int, clock: nat -> int): seq<Row> {
    match chunked
    case None => []
    case Some(chunks) => NewRows(chunks[..SavedCount(chunks, embed)], embed, firstId, clock)
  }

  /** Every added row is filed under the file name derived from the URL. */
  lemma AddedFiledUnder(fetched: seq<Document>, url: string, millis: int, chunker: string -> seq<string>,
                        embed: string -> Option<Embedding>, firstId: int, clock: nat -> int)
    ensures var added := Added(Chunked(fetched, url, millis, chunker), embed, firstId, clock);
      forall j :: 0 <= j < |added| ==> ExtractFilenameFromUrl(url, millis) == Success(added[j].fileName)
  {
    var chunked := Chunked(fetched, url, millis, chunker);
    if chunked.Some? {
      ChunksFiledUnder(fetched, url, millis, chunker);
      var chunks := chunked.value;
      var n := SavedCount(chunks, embed);
      var saved := chunks[..n];
      var added := NewRows(saved, embed, firstId, clock);
      assert Added(chunked, embed, firstId, clock) == added;
      forall j | 0 <= j < |added|
        ensures ExtractFilenameFromUrl(url, millis) == Success(added[j].fileName)
      {
        assert saved[j] == chunks[j];
        assert added[j].fileName == FileNameOf(chunks[j]);
      }
    }
  }

  /** A successful call adds one row per chunk, every chunk. */
  lemma AddedOnSuccess(chunks: seq<Document>, embed: string -> Option<Embedding>, firstId: int, clock: nat -> int)
    requires FirstFailure(chunks, embed).None?
    ensures AllEmbed(chunks, embed)
    ensures Added(Some(chunks), embed, firstId, clock) == NewRows(chunks, embed, firstId, clock)
  {
    assert chunks[..SavedCount(chunks, embed)] == chunks;
  }

  /** Reloading a plain trial id: afterwards the rows under the trial's key
      are exactly the rows this load added, and the rows under every other
      name are as they were. */
  lemma TrialReloaded(rows: seq<Row>, nctId: string, fetched: seq<Document>, millis: int, chunker: string -> seq<string>,
                      embed: string -> Option<Embedding>, firstId: int, clock: nat -> int, other: string)
    requires IsPlainId(nctId)
    ensures var url := TrialUrl(nctId);
      var added := Added(Chunked(fetched, url, millis, chunker), embed, firstId, clock);
      var after := WithoutFileName(rows, TrialKey(nctId)) + added;
      && FindByFileName(after, TrialKey(nctId)) == added
      && (other != TrialKey(nctId) ==> FindByFileName(after, other) == FindByFileName(rows, other))
  {
    var url := TrialUrl(nctId);
    TrialFileName(nctId, millis);
    AddedFiledUnder(fetched, url, millis, chunker, embed, firstId, clock);
    var added := Added(Chunked(fetched, url, millis, chunker), embed, firstId, clock);
    ReloadedOwnKey(rows, TrialKey(nctId), added);
    if other != TrialKey(nctId) {
      ReloadedOtherKey(rows, TrialKey(nctId), added, other);
    }
  }

  /** The rows one call adds are those of a prefix of the chunks: all of
      them exactly when the embedding model fails on none, and none when the
      call gave up before adding. After a failed reload the trial's key thus
      holds nothing or a proper prefix of the new rows: there is no rollback. */
  lemma AddedIsPrefix(chunked: Option<seq<Document>>, embed: string -> Option<Embedding>, firstId: int, clock: nat -> int)
    ensures chunked.None? ==> Added(chunked, embed, firstId, clock) == []
    ensures chunked.Some? ==> exists n :: (0 <= n <= |chunked.value| && AllEmbed(chunked.value[..n], embed) &&
      (n == |chunked.value| <==> FirstFailure(chunked.value, embed).None?) &&
      Added(chunked, embed, firstId, clock) == NewRows(chunked.value[..n], embed, firstId, clock))
  {
    if chunked.Some? {
      var n := SavedCount(chunked.value, embed);
      assert n == |chunked.value| <==> FirstFailure(chunked.value, embed).None?;
    }
  }

  /** Reloading any id leaves the rows under a name it neither looks up nor
      files chunks under as they were. */
  lemma ReloadLeavesOthers(rows: seq<Row>, nctId: string, fetched: seq<Document>, millis: int, chunker: string -> seq<string>,
                           embed: string -> Option<Embedding>, firstId: int, clock: nat -> int, other: string)
    requires Untouched(other, [nctId], millis)
    ensures var url := TrialUrl(nctId);
      var added := Added(Chunked(fetched, url, millis, chunker), embed, firstId, clock);
      FindByFileName(WithoutFileName(rows, TrialKey(nctId)) + added, other) == FindByFileName(rows, other)
  {
    var url := TrialUrl(nctId);
    AddedFiledUnder(fetched, url, millis, chunker, embed, firstId, clock);
    var added := Added(Chunked(fetched, url, millis, chunker), embed, firstId, clock);
    assert other != TrialKey(nctId) && ExtractFilenameFromUrl(url, millis) != Success(other) by {
      assert [nctId][0] == nctId;
    }
    ReloadedOtherKey(rows, TrialKey(nctId), added, other);
  }

  // ---------------------------------------------------------------------------
  // loadClinicalTrials

  /** The ids the loader works on, in order: each non-null id that is not
      blank, trimmed. */
  function TrialIds(ids: seq<Option<string>>): (r: seq<string>)
    ensures |r| <= |ids|
    ensures forall j :: 0 <= j < |r| ==> r[j] != [] && IsTrimmed(r[j])
  {
    if ids == [] then []
    else
      var last := ids[|ids| - 1];
      TrialIds(ids[..|ids| - 1]) + (if last.Some? && !IsBlank(last.value) then [Trim(last.value)] else [])
  }

  /** The entries of `xs` whose flag is `want`, in order. */
  function Picked(xs: seq<string>, flags: seq<bool>, want: bool): seq<string>
    requires |xs| == |flags|
  {
    if xs == [] then []
    else
      var n := |xs| - 1;
      Picked(xs[..n], flags[..n], want) + (if flags[n] == want then [xs[n]] else [])
  }

  lemma PickedSnoc(xs: seq<string>, flags: seq<bool>, x: string, b: bool, want: bool)
    requires |xs| == |flags|
    ensures Picked(xs + [x], flags + [b], want) == Picked(xs, flags, want) + (if b == want then [x] else [])
  {
    assert (xs + [x])[..|xs|] == xs && (flags + [b])[..|flags|] == flags;
  }

  /** Every entry is picked into exactly one of the two lists. */
  lemma {:induction false} PickedPartition(xs: seq<string>, flags: seq<bool>)
    requires |xs| == |flags|
    ensures |Picked(xs, flags, true)| + |Picked(xs, flags, false)| == |xs|
    ensures forall x :: x in xs <==> x in Picked(xs, flags, true) || x in Picked(xs, flags, false)
  {
    if xs != [] {
      var n := |xs| - 1;
      PickedPartition(xs[..n], flags[..n]);
      assert xs == xs[..n] + [xs[n]];
    }
  }

  /** A file name no loaded id is looked up under or files chunks under. */
  predicate Untouched(key: string, nctIds: seq<string>, millis: int) {
    forall j :: 0 <= j < |nctIds| ==>
      key != TrialKey(nctIds[j]) && ExtractFilenameFromUrl(TrialUrl(nctIds[j]), millis) != Success(key)
  }

  lemma IdsOfSnoc(xs: seq<Row>, i: int)
    requires 0 <= i < |xs|
    ensures IdsOf(xs[..i + 1]) == IdsOf(xs[..i]) + {xs[i].id}
  {
    assert forall j :: 0 <= j < i ==> xs[..i + 1][j] == xs[..i][j];
    assert xs[..i + 1][i] == xs[i];
  }

  lemma TrialIdsStep(ids: seq<Option<string>>, i: int)
    requires 0 <= i < |ids|
    ensures TrialIds(ids[..i + 1]) == TrialIds(ids[..i]) +
      (if ids[i].Some? && !IsBlank(ids[i].value) then [Trim(ids[i].value)] else [])
  {
    assert ids[..i + 1][..i] == ids[..i];
  }

  /** A name no id of `nctIds + [x]` touches is touched neither by `nctIds` nor by `x`. */
  lemma UntouchedSnoc(key: string, nctIds: seq<string>, x: string, millis: int)
    requires Untouched(key, nctIds + [x], millis)
    ensures Untouched(key, nctIds, millis) && Untouched(key, [x], millis)
  {
    assert forall j :: 0 <= j < |nctIds| ==> (nctIds + [x])[j] == nctIds[j];
    assert (nctIds + [x])[|nctIds|] == x;
  }

  /** Rows untouched by the ids loaded so far and untouched by the next
      one are untouched by all of them. */
  lemma UntouchedMaintained(rows0: seq<Row>, before: seq<Row>, after: seq<Row>, done: seq<string>, x: string, millis: int)
    requires forall key :: Untouched(key, done, millis) ==> FindByFileName(before, key) == FindByFileName(rows0, key)
    requires forall key :: Untouched(key, [x], millis) ==> FindByFileName(after, key) == FindByFileName(before, key)
    ensures forall key :: Untouched(key, done + [x], millis) ==> FindByFileName(after, key) == FindByFileName(rows0, key)
  {
    forall key | Untouched(key, done + [x], millis)
      ensures FindByFileName(after, key) == FindByFileName(rows0, key)
    {
      UntouchedSnoc(key, done, x, millis);
    }
  }

  /** The table's rows and its next identity, between two loads. */
  datatype Snapshot = Snapshot(rows: seq<Row>, nextId: int)

  /** One reload of a trial id takes the table from `before` to `after`:
      `overwrote` says whether rows were filed under the trial's key before,
      `success` whether every chunk of the report page was added, and the
      rows under the key are replaced by the chunks added. */
  predicate TrialStep(before: Snapshot, nctId: string, fetch: string -> Option<Element>, millis: int,
                      chunker: string -> seq<string>, embed: string -> Option<Embedding>, clock: nat -> int,
                      after: Snapshot, overwrote: bool, success: bool)
  {
    var url := TrialUrl(nctId);
    var chunked := Chunked(Read(url, fetch(url)), url, millis, chunker);
    var added := Added(chunked, embed, before.nextId, clock);
    && overwrote == (FindByFileName(before.rows, TrialKey(nctId)) != [])
    && success == (chunked.Some? && FirstFailure(chunked.value, embed).None?)
    && after.rows == WithoutFileName(before.rows, TrialKey(nctId)) + added
    && after.nextId == before.nextId + |added|
  }

  /** The ids were reloaded one after another: `states[k]` is the table
      before the k-th id and `states[k + 1]` after it, with that reload's
      overwrite flag and outcome. */
  predicate Replayed(nctIds: seq<string>, states: seq<Snapshot>, flags: seq<bool>, outcomes: seq<bool>,
                     fetch: string -> Option<Element>, millis: int, chunker: string -> seq<string>,
                     embed: string -> Option<Embedding>, clock: nat -> int)
  {
    && |states| == |nctIds| + 1 && |flags| == |nctIds| && |outcomes| == |nctIds|
    && forall k :: 0 <= k < |nctIds| ==>
         TrialStep(states[k], nctIds[k], fetch, millis, chunker, embed, clock, states[k + 1], flags[k], outcomes[k])
  }

  /** One more reload extends the record by its id, the new table, its flag and its outcome. */
  lemma ReplayedSnoc(nctIds: seq<string>, states: seq<Snapshot>, flags: seq<bool>, outcomes: seq<bool>,
                     fetch: string -> Option<Element>, millis: int, chunker: string -> seq<string>,
                     embed: string -> Option<Embedding>, clock: nat -> int,
                     x: string, after: Snapshot, overwrote: bool, success: bool)
    requires Replayed(nctIds, states, flags, outcomes, fetch, millis, chunker, embed, clock)
    requires TrialStep(states[|states| - 1], x, fetch, millis, chunker, embed, clock, after, overwrote, success)
    ensures Replayed(nctIds + [x], states + [after], flags + [overwrote], outcomes + [success],
                     fetch, millis, chunker, embed, clock)
  {
    var ids', states', flags', outcomes' := nctIds + [x], states + [after], flags + [overwrote], outcomes + [success];
    forall k | 0 <= k < |ids'|
      ensures TrialStep(states'[k], ids'[k], fetch, millis, chunker, embed, clock, states'[k + 1], flags'[k], outcomes'[k])
    {
      if k < |nctIds| {
        assert states'[k] == states[k] && states'[k + 1] == states[k + 1];
        assert ids'[k] == nctIds[k] && flags'[k] == flags[k] && outcomes'[k] == outcomes[k];
      } else {
        assert states'[k] == states[|states| - 1] && states'[k + 1] == after;
        assert ids'[k] == x && flags'[k] == overwrote && outcomes'[k] == success;
      }
    }
  }

  class UrlController {
    const store: PostgresVectorStore
    const repository: EmbeddingTable

    constructor(store: PostgresVectorStore, repository: EmbeddingTable)
      requires store.repository == repository
      ensures this.store == store && this.repository == repository
    {
      this.store := store;
      this.repository := repository;
    }

    /** The store writes to the table the controller reads. */
    ghost predicate Valid()
      reads repository
    {
      store.repository == repository && repository.Valid()
    }

    /** `processUrlInternal`: read the page, then store what it gives. */
    method ProcessUrlInternal(url: string, page: Option<Element>, millis: int, chunker: string -> seq<string>,
                              embed: string -> Option<Embedding>, clock: nat -> int)
      returns (success: bool)
      requires Valid()
      modifies repository
      ensures Valid()
      ensures var chunked := Chunked(Read(url, page), url, millis, chunker);
        var added := Added(chunked, embed, old(repository.nextId), clock);
        && success == (chunked.Some? && FirstFailure(chunked.value, embed).None?)
        && repository.rows == old(repository.rows) + added
        && repository.nextId == old(repository.nextId) + |added|
    {
      var documents := Get(url, page);
      success := StoreDocuments(documents, url, millis, chunker, embed, clock);
    }

    /** The rest of `processUrlInternal` once the page is read: tag the
        documents with the file name derived from the URL, preprocess,
        split and add the chunks. It reports success only when every chunk
        was added; the chunks added before a failing one stay. */
    method StoreDocuments(documents: seq<Document>, url: string, millis: int, chunker: string -> seq<string>,
                          embed: string -> Option<Embedding>, clock: nat -> int)
      returns (success: bool)
      requires Valid()
      modifies repository
      ensures Valid()
      ensures var chunked := Chunked(documents, url, millis, chunker);
        var added := Added(chunked, embed, old(repository.nextId), clock);
        && success == (chunked.Some? && FirstFailure(chunked.value, embed).None?)
        && repository.rows == old(repository.rows) + added
        && repository.nextId == old(repository.nextId) + |added|
    {
      if documents == [] {
        return false;
      }
      var filename := ExtractFilenameFromUrl(url, millis);
      if filename.Failure? {
        return false;
      }
      var tagged := WithFileName(documents, filename.value);
      var preprocessedDocs := PreprocessDocuments(tagged);
      if preprocessedDocs == [] {
        return false;
      }
      var splitDocuments := Chunks(preprocessedDocs, chunker);
      var failedAt := store.Add(splitDocuments, embed, clock);
      success := failedAt.None?;
    }

    /** Delete the given rows, one by one. */
    method DeleteExisting(existing: seq<Row>)
      requires Valid()
      modifies repository
      ensures Valid()
      ensures repository.rows == WithoutIds(old(repository.rows), IdsOf(existing))
      ensures repository.nextId == old(repository.nextId)
    {
      ghost var deleted: set<int> := {};
      assert IdsOf(existing[..0]) == {};
      WithoutNoIds(repository.rows);
      var i := 0;
      while i < |existing|
        invariant 0 <= i <= |existing|
        invariant Valid()
        invariant deleted == IdsOf(existing[..i])
        invariant repository.rows == WithoutIds(old(repository.rows), deleted)
        invariant repository.nextId == old(repository.nextId)
      {
        repository.Delete(existing[i]);
        WithoutIdsStep(old(repository.rows), deleted, existing[i].id);
        IdsOfSnoc(existing, i);
        deleted := deleted + {existing[i].id};
        i := i + 1;
      }
      assert existing[..i] == existing;
    }

    /** One pass of the loop in `loadClinicalTrials` for an id that is not
        blank: delete the rows filed under `CLINICAL TRIAL: <id>`, then
        process the trial's report page. */
    method LoadTrial(raw: string, fetch: string -> Option<Element>, millis: int, chunker: string -> seq<string>,
                     embed: string -> Option<Embedding>, clock: nat -> int)
      returns (nctId: string, overwrote: bool, success: bool)
      requires Valid() && !IsBlank(raw)
      modifies repository
      ensures Valid()
      ensures nctId == Trim(raw)
      ensures overwrote == (FindByFileName(old(repository.rows), TrialKey(nctId)) != [])
      ensures var url := TrialUrl(nctId);
        var chunked := Chunked(Read(url, fetch(url)), url, millis, chunker);
        var added := Added(chunked, embed, old(repository.nextId), clock);
        && success == (chunked.Some? && FirstFailure(chunked.value, embed).None?)
        && repository.rows == WithoutFileName(old(repository.rows), TrialKey(nctId)) + added
        && repository.nextId == old(repository.nextId) + |added|
      ensures forall key :: Untouched(key, [nctId], millis) ==>
        FindByFileName(repository.rows, key) == FindByFileName(old(repository.rows), key)
    {
      nctId := Trim(raw);
      var url := TrialUrlPrefix + nctId;
      var existing := FindByFileName(repository.rows, TrialKeyPrefix + nctId);
      overwrote := existing != [];
      IdsOfFileName(repository.rows, TrialKey(nctId));
      WithoutIdsIsWithoutFileName(repository.rows, IdsOf(existing), TrialKey(nctId));
      DeleteExisting(existing);
      success := ProcessUrlInternal(url, fetch(url), millis, chunker, embed, clock);
      forall key | Untouched(key, [nctId], millis)
        ensures FindByFileName(repository.rows, key) == FindByFileName(old(repository.rows), key)
      {
        ReloadLeavesOthers(old(repository.rows), nctId, Read(url, fetch(url)), millis, chunker, embed, old(repository.nextId), clock, key);
      }
    }

    /** The body of the loop in `loadClinicalTrials`: a null or blank id is
        skipped and changes nothing; any other id is trimmed and reloaded. */
    method LoadEntry(entry: Option<string>, fetch: string -> Option<Element>, millis: int, chunker: string -> seq<string>,
                     embed: string -> Option<Embedding>, clock: nat -> int)
      returns (skipped: bool, nctId: string, overwrote: bool, success: bool)
      requires Valid()
      modifies repository
      ensures Valid()
      ensures skipped == (entry.None? || IsBlank(entry.value))
      ensures skipped ==> repository.rows == old(repository.rows) && repository.nextId == old(repository.nextId)
      ensures !skipped ==> nctId == Trim(entry.value)
      ensures !skipped ==> TrialStep(Snapshot(old(repository.rows), old(repository.nextId)), nctId,
                                     fetch, millis, chunker, embed, clock,
                                     Snapshot(repository.rows, repository.nextId), overwrote, success)
      ensures forall key :: Untouched(key, [nctId], millis) ==>
        FindByFileName(repository.rows, key) == FindByFileName(old(repository.rows), key)
    {
      if entry.None? || Trim(entry.value) == [] {
        return true, "", false, false;
      }
      skipped := false;
      nctId, overwrote, success := LoadTrial(entry.value, fetch, millis, chunker, embed, clock);
    }

    /** `loadClinicalTrials`: every id that is neither null nor blank is
        trimmed and reloaded, in order. `states` records the table before
        and after each reload, and `flags` and `outcomes` its overwrite flag
        and its success; an id lands in `processed` or in `failed` by its
        outcome, and in `overwritten` when it had rows before its reload.
        Rows under a name that no loaded id looks up or files chunks under
        are left as they were. */
    method LoadClinicalTrials(ids: seq<Option<string>>, fetch: string -> Option<Element>, millis: int,
                              chunker: string -> seq<string>, embed: string -> Option<Embedding>, clock: nat -> int)
      returns (processed: seq<string>, overwritten: seq<string>, failed: seq<string>,
               ghost states: seq<Snapshot>, ghost flags: seq<bool>, ghost outcomes: seq<bool>)
      requires Valid()
      modifies repository
      ensures Valid()
      ensures Replayed(TrialIds(ids), states, flags, outcomes, fetch, millis, chunker, embed, clock)
      ensures states[0] == Snapshot(old(repository.rows), old(repository.nextId))
      ensures states[|states| - 1] == Snapshot(repository.rows, repository.nextId)
      ensures processed == Picked(TrialIds(ids), outcomes, true)
      ensures failed == Picked(TrialIds(ids), outcomes, false)
      ensures overwritten == Picked(TrialIds(ids), flags, true)
      ensures forall key :: Untouched(key, TrialIds(ids), millis) ==>
        FindByFileName(repository.rows, key) == FindByFileName(old(repository.rows), key)
    {
      processed, overwritten, failed := [], [], [];
      states, flags, outcomes := [Snapshot(repository.rows, repository.nextId)], [], [];
      var i := 0;
      while i < |ids|
        invariant 0 <= i <= |ids|
        invariant Valid()
        invariant Replayed(TrialIds(ids[..i]), states, flags, outcomes, fetch, millis, chunker, embed, clock)
        invariant states[0] == Snapshot(old(repository.rows), old(repository.nextId))
        invariant states[|states| - 1] == Snapshot(repository.rows, repository.nextId)
        invariant processed == Picked(TrialIds(ids[..i]), outcomes, true)
        invariant failed == Picked(TrialIds(ids[..i]), outcomes, false)
        invariant overwritten == Picked(TrialIds(ids[..i]), flags, true)
        invariant forall key :: Untouched(key, TrialIds(ids[..i]), millis) ==>
          FindByFileName(repository.rows, key) == FindByFileName(old(repository.rows), key)
      {
        TrialIdsStep(ids, i);
        ghost var before := repository.rows;
        ghost var done := TrialIds(ids[..i]);
        var skipped, id, overwrote, success := LoadEntry(ids[i], fetch, millis, chunker, embed, clock);
        if skipped {
          assert TrialIds(ids[..i + 1]) == done by { ConcatEmpty(done); }
          i := i + 1;
          continue;
        }
        assert TrialIds(ids[..i + 1]) == done + [id];
        UntouchedMaintained(old(repository.rows), before, repository.rows, done, id, millis);
        ghost var after := Snapshot(repository.rows, repository.nextId);
        ReplayedSnoc(done, states, flags, outcomes, fetch, millis, chunker, embed, clock, id, after, overwrote, success);
        PickedSnoc(done, outcomes, id, success, true);
        PickedSnoc(done, outcomes, id, success, false);
        PickedSnoc(done, flags, id, overwrote, true);
        if overwrote {
          overwritten := overwritten + [id];
        }
        if success {
          processed := processed + [id];
        } else {
          failed := failed + [id];
        }
        states, flags, outcomes := states + [after], flags + [overwrote], outcomes + [success];
        i := i + 1;
      }
      assert ids[..i] == ids;
    }
  }
}

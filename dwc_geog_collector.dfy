/**
 The geography vocabulary collector: it takes the distinct composite
 geography values found in a Darwin Core data file, finds those not yet in
 the geography vocabulary file, and appends one row per new value to that
 file, provided the file's header is the standard geography header. A
 vocabulary file that does not exist is first created with that header.

 The vocabulary file is an object whose contents (a header and rows, each
 row a dictionary from column name to text) are changed in place. The
 candidate values (what `distinct_composite_term_values_from_file` returns
 for the data file) and the composite key column name (what
 `compose_key_from_list` returns for the geography terms) are parameters.
 */
module GeogCollector {
  import opened Common

  /** One row of the vocabulary file, by column name. */
  type Row = map<string, string>

  /** A vocabulary file's contents: its header row and its data rows. */
  datatype Vocabulary = Vocabulary(header: seq<string>, rows: seq<Row>)

  /** The standard geography vocabulary header: the key column, `standard`, `checked`. */
  function GeogVocabHeader(geogkey: string): seq<string>
  {
    [geogkey, "standard", "checked"]
  }

  /** The row appended for a new value: the value, an empty `standard`, `checked` 0. */
  function NewRow(geogkey: string, term: string): Row
  {
    map[geogkey := term, "standard" := "", "checked" := "0"]
  }

  function NewRows(geogkey: string, terms: seq<string>): (rows: seq<Row>)
  {
    seq(|terms|, i requires 0 <= i < |terms| => NewRow(geogkey, terms[i]))
  }

  /** The distinct values of column `key` among `rows`. */
  function KeyValues(rows: seq<Row>, key: string): set<string>
  {
    set r | r in rows && key in r :: r[key]
  }

  /** `distinct_term_values_from_file`: the key values of an existing file, none for a missing one. */
  function ExistingValues(vocab: Option<Vocabulary>, key: string): set<string>
  {
    if vocab.Some? then KeyValues(vocab.value.rows, key) else {}
  }

  /**
   `not_in_list(existing, candidates)`: the candidates that are not existing
   values, in the order of the candidates. These are the "new ones": every
   candidate is either an existing value or one of them, never both.
   */
  function NotInList(existing: set<string>, candidates: seq<string>): (added: seq<string>)
    ensures forall v :: v in added <==> v in candidates && v !in existing
    ensures |added| <= |candidates|
  {
    if candidates == [] then []
    else if candidates[0] in existing then NotInList(existing, candidates[1..])
    else [candidates[0]] + NotInList(existing, candidates[1..])
  }

  /** The comment for a header mismatch; the source puts no space between the path and "does". */
  function MismatchMessage(vocabfile: string): string
  {
    "header read from " + vocabfile + "does not match geogvocabheader"
  }

  /** The vocabulary file at one path; `contents` is None while it does not exist. */
  class VocabFile {
    var contents: Option<Vocabulary>

    constructor (contents: Option<Vocabulary>)
      ensures this.contents == contents
    {
      this.contents := contents;
    }

    /** `writevocabheader`: (re)create the file holding only `header`. */
    method WriteHeader(header: seq<string>)
      modifies this
      ensures contents == Some(Vocabulary(header, []))
    {
      contents := Some(Vocabulary(header, []));
    }

    /** One `writer.writerow` on the file opened for appending. */
    method AppendRow(row: Row)
      requires contents.Some?
      modifies this
      ensures contents == Some(old(contents.value).(rows := old(contents.value.rows) + [row]))
    {
      contents := Some(contents.value.(rows := contents.value.rows + [row]));
    }
  }

  /** The vocabulary after a run of the collector on `vocab` with `candidates`. */
  function AfterRun(vocab: Option<Vocabulary>, geogkey: string, candidates: seq<string>): Vocabulary
  {
    var added := NotInList(ExistingValues(vocab, geogkey), candidates);
    var start := if vocab.Some? then vocab.value else Vocabulary(GeogVocabHeader(geogkey), []);
    if start.header == GeogVocabHeader(geogkey) then start.(rows := start.rows + NewRows(geogkey, added))
    else start
  }

  /**
   The collector. The added values are computed from the vocabulary as it is
   on entry, before a missing file is created. Only when the header read back
   is the standard one are the rows appended; the response always reports
   the added values, the success flag and the comment.
   */
  method DwcGeogCollector(vocab: VocabFile, vocabfile: string, geogkey: string, potentialgeogs: seq<string>)
    returns (response: map<string, JsonValue>)
    modifies vocab
    ensures vocab.contents == Some(AfterRun(old(vocab.contents), geogkey, potentialgeogs))
    ensures var added := NotInList(ExistingValues(old(vocab.contents), geogkey), potentialgeogs);
            var ok := old(vocab.contents).None? || old(vocab.contents.value.header) == GeogVocabHeader(geogkey);
            && response.Keys == {"addedvalues", "success", "comment"}
            && response["addedvalues"] == JStrList(added)
            && response["success"] == JBool(ok)
            && response["comment"] == (if ok then JNull else JStr(MismatchMessage(vocabfile)))
    ensures old(vocab.contents).Some? ==>
              vocab.contents.Some? && old(vocab.contents.value.header) == vocab.contents.value.header &&
              old(vocab.contents.value.rows) <= vocab.contents.value.rows
  {
    var existinggeogs := ExistingValues(vocab.contents, geogkey);
    var addedvalues := NotInList(existinggeogs, potentialgeogs);
    var success := false;
    var message := JNull;

    var geogheader := GeogVocabHeader(geogkey);
    if vocab.contents.None? {
      vocab.WriteHeader(geogheader);
    }
    ghost var start := vocab.contents.value;
    var checkheader := vocab.contents.value.header;
    if checkheader == geogheader {
      assert NewRows(geogkey, addedvalues[..0]) == [] && start.rows + [] == start.rows;
      for i := 0 to |addedvalues|
        invariant vocab.contents == Some(start.(rows := start.rows + NewRows(geogkey, addedvalues[..i])))
      {
        ghost var sofar := NewRows(geogkey, addedvalues[..i]);
        assert NewRows(geogkey, addedvalues[..i + 1]) == sofar + [NewRow(geogkey, addedvalues[i])];
        vocab.AppendRow(NewRow(geogkey, addedvalues[i]));
        assert vocab.contents.value.rows == start.rows + (sofar + [NewRow(geogkey, addedvalues[i])]);
        assert vocab.contents.value.header == start.header;
      }
      assert addedvalues[..|addedvalues|] == addedvalues;
      success := true;
    } else {
      message := JStr(MismatchMessage(vocabfile));
    }

    response := CollectorResponse(addedvalues, success, message);
  }

  /** The response: the added values, the success flag and the comment, always all three. */
  method CollectorResponse(addedvalues: seq<string>, success: bool, message: JsonValue)
    returns (response: map<string, JsonValue>)
    ensures response.Keys == {"addedvalues", "success", "comment"}
    ensures response["addedvalues"] == JStrList(addedvalues)
    ensures response["success"] == JBool(success)
    ensures response["comment"] == message
  {
    var returnvars := ["addedvalues", "success", "comment"];
    var returnvals := [JStrList(addedvalues), JBool(success), message];
    response := BuildResponse(returnvars, returnvals);
    assert LastOccurrence(returnvars, 0) && LastOccurrence(returnvars, 1) && LastOccurrence(returnvars, 2);
  }

  // ---------------------------------------------------------------------
  // Properties
  // ---------------------------------------------------------------------

  /** With no existing values (a missing vocabulary file), every candidate is added, in order. */
  lemma {:induction false} MissingVocabularyAddsAll(candidates: seq<string>)
    ensures NotInList({}, candidates) == candidates
  {
    if candidates != [] {
      MissingVocabularyAddsAll(candidates[1..]);
      assert candidates == [candidates[0]] + candidates[1..];
    }
  }

  /** The key column is neither of the two fixed columns, so a new row keeps its value. */
  predicate DistinctColumns(geogkey: string)
  {
    geogkey != "standard" && geogkey != "checked"
  }

  /** When every candidate is an existing value, nothing is new. */
  lemma {:induction false} NotInListAllExisting(existing: set<string>, candidates: seq<string>)
    requires forall v :: v in candidates ==> v in existing
    ensures NotInList(existing, candidates) == []
  {
    if candidates != [] {
      assert candidates[0] in existing;
      NotInListAllExisting(existing, candidates[1..]);
    }
  }

  /** The rows a run appends carry exactly the added values in the key column. */
  lemma NewRowsValues(geogkey: string, terms: seq<string>)
    requires DistinctColumns(geogkey)
    ensures KeyValues(NewRows(geogkey, terms), geogkey) == set t | t in terms
  {
    var rows := NewRows(geogkey, terms);
    forall t | t in terms
      ensures t in KeyValues(rows, geogkey)
    {
      var i :| 0 <= i < |terms| && terms[i] == t;
      assert rows[i] in rows && rows[i][geogkey] == t;
    }
  }

  lemma KeyValuesAppend(rows: seq<Row>, more: seq<Row>, key: string)
    ensures KeyValues(rows + more, key) == KeyValues(rows, key) + KeyValues(more, key)
  {
  }

  /**
   After a successful run, every candidate is an existing value: a second run
   with the same candidates adds nothing and leaves the vocabulary as it is.
   */
  lemma RerunAddsNothing(vocab: Option<Vocabulary>, geogkey: string, candidates: seq<string>)
    requires DistinctColumns(geogkey)
    requires AfterRun(vocab, geogkey, candidates).header == GeogVocabHeader(geogkey)
    ensures NotInList(KeyValues(AfterRun(vocab, geogkey, candidates).rows, geogkey), candidates) == []
    ensures AfterRun(Some(AfterRun(vocab, geogkey, candidates)), geogkey, candidates)
            == AfterRun(vocab, geogkey, candidates)
  {
    var existing := ExistingValues(vocab, geogkey);
    var added := NotInList(existing, candidates);
    var start := if vocab.Some? then vocab.value else Vocabulary(GeogVocabHeader(geogkey), []);
    var after := AfterRun(vocab, geogkey, candidates);
    assert after.rows == start.rows + NewRows(geogkey, added);
    KeyValuesAppend(start.rows, NewRows(geogkey, added), geogkey);
    NewRowsValues(geogkey, added);
    assert existing == KeyValues(start.rows, geogkey);
    NotInListAllExisting(KeyValues(after.rows, geogkey), candidates);
    assert NewRows(geogkey, []) == [];
    assert after.rows + [] == after.rows;
  }

  predicate NoDuplicates(s: seq<string>)
  {
    forall i, j :: 0 <= i < j < |s| ==> s[i] != s[j]
  }

  /** No two rows carry the same key value. */
  predicate UniqueKeys(rows: seq<Row>, key: string)
  {
    forall i, j :: 0 <= i < j < |rows| && key in rows[i] && key in rows[j] ==> rows[i][key] != rows[j][key]
  }

  /** Distinct candidates give distinct added values. */
  lemma {:induction false} NotInListNoDuplicates(existing: set<string>, candidates: seq<string>)
    requires NoDuplicates(candidates)
    ensures NoDuplicates(NotInList(existing, candidates))
  {
    if candidates != [] {
      var rest := candidates[1..];
      assert NoDuplicates(rest);
      NotInListNoDuplicates(existing, rest);
      var tail := NotInList(existing, rest);
      assert candidates[0] !in rest;
      assert candidates[0] !in tail;
    }
  }

  /**
   A run never duplicates a key value already in the vocabulary: if the rows'
   key values are distinct and the candidates are distinct, they stay
   distinct after the append.
   */
  lemma AppendKeepsKeysUnique(vocab: Option<Vocabulary>, geogkey: string, candidates: seq<string>)
    requires DistinctColumns(geogkey)
    requires vocab.Some? ==> UniqueKeys(vocab.value.rows, geogkey)
    requires NoDuplicates(candidates)
    ensures UniqueKeys(AfterRun(vocab, geogkey, candidates).rows, geogkey)
  {
    var existing := ExistingValues(vocab, geogkey);
    var added := NotInList(existing, candidates);
    var start := if vocab.Some? then vocab.value else Vocabulary(GeogVocabHeader(geogkey), []);
    if start.header == GeogVocabHeader(geogkey) {
      NotInListNoDuplicates(existing, candidates);
      var old_ := start.rows;
      var fresh_ := NewRows(geogkey, added);
      var rows := old_ + fresh_;
      forall i, j | 0 <= i < j < |rows| && geogkey in rows[i] && geogkey in rows[j]
        ensures rows[i][geogkey] != rows[j][geogkey]
      {
        if j < |old_| {
          assert rows[i] == old_[i] && rows[j] == old_[j];
        } else if i < |old_| {
          assert rows[i] in old_;
          assert rows[i][geogkey] in existing;
          assert rows[j][geogkey] == added[j - |old_|];
        } else {
          assert rows[i][geogkey] == added[i - |old_|];
          assert rows[j][geogkey] == added[j - |old_|];
        }
      }
    }
  }

  /**
   Running the collector twice with the same candidates: when the first run
   succeeds, the second reports no added values and leaves the file as the
   first run left it.
   */
  method RunTwice(vocab: VocabFile, vocabfile: string, geogkey: string, potentialgeogs: seq<string>)
    returns (first: map<string, JsonValue>, second: map<string, JsonValue>)
    requires DistinctColumns(geogkey)
    modifies vocab
    ensures first.Keys == second.Keys == {"addedvalues", "success", "comment"}
    ensures first["success"] == JBool(true) ==>
              second["addedvalues"] == JStrList([]) && second["success"] == JBool(true) &&
              vocab.contents == Some(AfterRun(old(vocab.contents), geogkey, potentialgeogs))
  {
    ghost var initial := vocab.contents;
    first := DwcGeogCollector(vocab, vocabfile, geogkey, potentialgeogs);
    second := DwcGeogCollector(vocab, vocabfile, geogkey, potentialgeogs);
    if first["success"] == JBool(true) {
      RerunAddsNothing(initial, geogkey, potentialgeogs);
    }
  }
}

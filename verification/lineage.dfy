/**
  The lineage index builder of the data lineage viewer (test.py, lines 13-36 and 42-53).

  Each row of an output sheet names an output column, a record id (`Sor_id`), a
  newline-separated list of `table.column` references, a transformation rule and a
  sample value. The builder resolves the references against the input-table catalog
  and collects, per (sheet, Sor_id, output column), the resolved references (appended
  across rows), the rule and the example (overwritten by later rows).

  The three nested `defaultdict`s of the source are modelled flat, keyed by `Key`.
  The lineage part keeps the insertion order of its keys, since the source lists
  sheets, Sor_ids and output columns in the order its dictionaries first saw them.
 */
module Lineage {
  import opened Wrappers
  import opened Text
  import opened Assoc

  /** Input table name (lower case) to its ordered column names. */
  type Catalog = map<string, seq<string>>

  /** A resolved reference to an input column. */
  datatype Ref = Ref(table: string, column: string)

  /**
    One spreadsheet row of an output sheet. `rule` and `example` are `None` when the
    sheet lacks the `Tranformation_rule` / `Sample_examples` column.
   */
  datatype Row = Row(
    sheet: string,
    outCol: string,
    sorId: string,
    refs: string,
    rule: Option<string>,
    example: Option<string>)

  datatype Key = Key(sheet: string, sorId: string, outCol: string)

  /**
    The lineage index: resolved references per key in first-insertion order, and the
    rule and example text per key.
   */
  datatype Index = Index(
    lineage: seq<(Key, seq<Ref>)>,
    rules: map<Key, string>,
    examples: map<Key, string>)

  function PyStrip(s: string): string {
    Strip(s, IsPyWhitespace)
  }

  /**
    The catalog built from the input workbook: one entry per sheet, keyed by the
    lower-cased sheet name; when two sheet names lower-case alike the later sheet wins.
   */
  function BuildCatalog(sheets: seq<(string, seq<string>)>): (c: Catalog)
    ensures c.Keys == set i | 0 <= i < |sheets| :: Lower(sheets[i].0)
    decreases |sheets|
  {
    if |sheets| == 0 then map[]
    else
      var n := |sheets| - 1;
      var prev := BuildCatalog(sheets[..n]);
      assert (set i | 0 <= i < |sheets| :: Lower(sheets[i].0))
        == (set i | 0 <= i < n :: Lower(sheets[..n][i].0)) + {Lower(sheets[n].0)};
      prev[Lower(sheets[n].0) := sheets[n].1]
  }

  /** A table's columns are those of the last sheet whose name lower-cases to it. */
  lemma {:induction false} CatalogLastSheetWins(sheets: seq<(string, seq<string>)>, i: int)
    requires LastNamed(sheets, i)
    ensures Lower(sheets[i].0) in BuildCatalog(sheets)
    ensures BuildCatalog(sheets)[Lower(sheets[i].0)] == sheets[i].1
    decreases |sheets|
  {
    var n := |sheets| - 1;
    if i < n {
      assert Lower(sheets[n].0) != Lower(sheets[i].0);
      assert sheets[..n][i] == sheets[i];
      assert LastNamed(sheets[..n], i) by {
        assert forall j :: i < j < n ==> sheets[..n][j] == sheets[j];
      }
      CatalogLastSheetWins(sheets[..n], i);
    }
  }

  /** Sheet `i` is the last one whose name lower-cases to its lower-cased name. */
  predicate LastNamed(sheets: seq<(string, seq<string>)>, i: int) {
    && 0 <= i < |sheets|
    && forall j :: i < j < |sheets| ==> Lower(sheets[j].0) != Lower(sheets[i].0)
  }

  /**
    `tok` names `ref`: after stripping and lower-casing, the token reads
    `ref.table + "." + ref.column`, where the table is a catalog key without a dot.
   */
  predicate Names(catalog: Catalog, tok: string, ref: Ref) {
    && ref.table in catalog
    && '.' !in ref.table
    && ref.table + "." + ref.column == Lower(PyStrip(tok))
  }

  /** Stripping and lower-casing neither create nor remove a dot. */
  lemma DotKept(tok: string)
    ensures '.' in Lower(PyStrip(tok)) <==> '.' in tok
  {
    var clean := Lower(PyStrip(tok));
    if '.' in clean {
      var i :| 0 <= i < |clean| && clean[i] == '.';
      assert PyStrip(tok)[i] == '.';
    }
    if '.' in tok {
      assert '.' in PyStrip(tok);
      var i :| 0 <= i < |PyStrip(tok)| && PyStrip(tok)[i] == '.';
      assert clean[i] == '.';
    }
  }

  /**
    Resolves one reference token (test.py:31-33): it yields a reference exactly when
    it names one, i.e. it contains a dot and its stripped, lower-cased text before the
    first dot is a catalog key; the column is the lower-cased rest.
   */
  function ResolveToken(catalog: Catalog, tok: string): (r: Option<Ref>)
    ensures forall ref :: Names(catalog, tok, ref) <==> r == Some(ref)
    ensures '.' !in tok ==> r == None
  {
    DotKept(tok);
    if '.' !in tok then None
    else
      var clean := Lower(PyStrip(tok));
      var (table, col) := SplitFirst(clean, '.');
      assert forall ref :: Names(catalog, tok, ref) ==> ref == Ref(table, col) by {
        forall ref | Names(catalog, tok, ref) ensures ref == Ref(table, col) {
          SplitFirstUnique(clean, '.', ref.table, ref.column);
        }
      }
      if table in catalog then Some(Ref(table, col)) else None
  }

  /** Number of tokens that contain a dot. */
  function CountDotted(toks: seq<string>): nat {
    if |toks| == 0 then 0
    else (if '.' in toks[0] then 1 else 0) + CountDotted(toks[1..])
  }

  /**
    Resolves a list of tokens in order, dropping the ones that do not resolve: the
    result is no longer than the number of dotted tokens, and every reference's table
    is a dot-free catalog key.
   */
  function ResolveAll(catalog: Catalog, toks: seq<string>): (r: seq<Ref>)
    ensures |r| <= CountDotted(toks)
    ensures forall x :: x in r ==> x.table in catalog && '.' !in x.table
    decreases |toks|
  {
    if |toks| == 0 then []
    else TokenRefs(catalog, toks[0]) + ResolveAll(catalog, toks[1..])
  }

  /** The references one token contributes: the one it resolves to, or none. */
  function TokenRefs(catalog: Catalog, tok: string): (r: seq<Ref>)
    ensures |r| <= 1 && ('.' !in tok ==> r == [])
    ensures forall x :: x in r ==> x.table in catalog && '.' !in x.table
  {
    match ResolveToken(catalog, tok)
    case Some(x) => [x]
    case None => []
  }

  /** A token contributes exactly the reference it names. */
  lemma TokenRefsNames(catalog: Catalog, tok: string, x: Ref)
    ensures x in TokenRefs(catalog, tok) <==> Names(catalog, tok, x)
  {
  }

  /** Every resolved reference is named by one of the tokens. */
  lemma {:induction false} ResolveAllNamed(catalog: Catalog, toks: seq<string>, x: Ref)
    ensures x in ResolveAll(catalog, toks) ==> exists i :: 0 <= i < |toks| && Names(catalog, toks[i], x)
    decreases |toks|
  {
    if x in ResolveAll(catalog, toks) {
      assert |toks| > 0;
      if x in TokenRefs(catalog, toks[0]) {
        TokenRefsNames(catalog, toks[0], x);
      } else {
        ResolveAllNamed(catalog, toks[1..], x);
        var i :| 0 <= i < |toks[1..]| && Names(catalog, toks[1..][i], x);
        assert toks[i + 1] == toks[1..][i];
      }
    }
  }

  /** Resolving a concatenation of token lists resolves each list, in order. */
  lemma {:induction false} ResolveAllAppend(catalog: Catalog, a: seq<string>, b: seq<string>)
    ensures ResolveAll(catalog, a + b) == ResolveAll(catalog, a) + ResolveAll(catalog, b)
    decreases |a|
  {
    if |a| > 0 {
      assert (a + b)[0] == a[0];
      assert (a + b)[1..] == a[1..] + b;
      ResolveAllAppend(catalog, a[1..], b);
      ConcatAssoc(TokenRefs(catalog, a[0]), ResolveAll(catalog, a[1..]), ResolveAll(catalog, b));
    } else {
      assert a + b == b;
    }
  }

  /**
    A single token contributes exactly the reference it names, or nothing when it
    names none; with `ResolveAllAppend` this fixes the result of every token list:
    one reference per resolving token, in token order, duplicates kept.
   */
  lemma ResolveAllOne(catalog: Catalog, tok: string)
    ensures |ResolveAll(catalog, [tok])| <= 1
    ensures forall ref :: ResolveAll(catalog, [tok]) == [ref] <==> Names(catalog, tok, ref)
  {
    assert [tok][1..] == [];
  }

  /** Every token that names a reference contributes it. */
  lemma ResolveAllComplete(catalog: Catalog, toks: seq<string>, i: int, x: Ref)
    requires 0 <= i < |toks| && Names(catalog, toks[i], x)
    ensures x in ResolveAll(catalog, toks)
  {
    assert x in TokenRefs(catalog, toks[i]) by {
      TokenRefsNames(catalog, toks[i], x);
    }
    ResolveAllAt(catalog, toks, i);
  }

  /** Token `i` contributes its references between those of the tokens around it. */
  lemma ResolveAllAt(catalog: Catalog, toks: seq<string>, i: int)
    requires 0 <= i < |toks|
    ensures ResolveAll(catalog, toks) ==
      ResolveAll(catalog, toks[..i]) + TokenRefs(catalog, toks[i]) + ResolveAll(catalog, toks[i + 1..])
  {
    var rest := toks[i..];
    assert toks == toks[..i] + rest;
    ResolveAllAppend(catalog, toks[..i], rest);
    assert rest[0] == toks[i] && rest[1..] == toks[i + 1..];
    ConcatAssoc(ResolveAll(catalog, toks[..i]), TokenRefs(catalog, toks[i]), ResolveAll(catalog, toks[i + 1..]));
  }

  /** The references of one row's `Input_table_col_name` cell (split on newlines). */
  function ResolveRefs(catalog: Catalog, field: string): seq<Ref> {
    ResolveAll(catalog, Split(field, '\n'))
  }

  /** A row after parsing: its key, resolved references, rule and example. */
  datatype Entry = Entry(key: Key, refs: seq<Ref>, rule: string, example: string)

  /**
    Reads one row (test.py:25-34): the key is the sheet with the stripped Sor_id and
    output column, the rule and example are stripped (empty when the column is
    missing), and the references are the resolved tokens of the newline-split cell.
   */
  function ReadRow(catalog: Catalog, row: Row): (e: Entry)
    ensures e.key.sheet == row.sheet
    ensures e.key.sorId == PyStrip(row.sorId) && e.key.outCol == PyStrip(row.outCol)
    ensures e.refs == ResolveRefs(catalog, row.refs)
    ensures forall x :: x in e.refs ==> x.table in catalog && '.' !in x.table
    ensures e.rule == [] || !IsPyWhitespace(e.rule[0])
    ensures e.example == [] || !IsPyWhitespace(e.example[0])
    ensures row.rule == None ==> e.rule == []
    ensures row.example == None ==> e.example == []
    ensures row.rule.Some? ==> e.rule == PyStrip(row.rule.value)
    ensures row.example.Some? ==> e.example == PyStrip(row.example.value)
  {
    Entry(
      Key(row.sheet, PyStrip(row.sorId), PyStrip(row.outCol)),
      ResolveRefs(catalog, row.refs),
      StripCell(row.rule),
      StripCell(row.example))
  }

  /** An optional text cell, stripped; a missing cell reads as the empty text. */
  function StripCell(cell: Option<string>): (r: string)
    ensures r == [] || !IsPyWhitespace(r[0])
    ensures cell == None ==> r == []
    ensures cell.Some? ==> r == PyStrip(cell.value)
  {
    match cell
    case Some(t) => PyStrip(t)
    case None => ""
  }

  /**
    One iteration of the row loop (test.py:30-36): the entry's references are appended
    under its key (no lineage entry is created when none resolved), and its rule and
    example overwrite whatever the key held.
   */
  function AddEntry(idx: Index, e: Entry): Index {
    Index(
      if |e.refs| == 0 then idx.lineage else Extend(idx.lineage, e.key, e.refs),
      idx.rules[e.key := e.rule],
      idx.examples[e.key := e.example])
  }

  /** Every lineage entry holds at least one reference, each into the catalog. */
  predicate RefsResolved(catalog: Catalog, idx: Index) {
    forall i :: 0 <= i < |idx.lineage| ==>
      |idx.lineage[i].1| > 0 && forall x :: x in idx.lineage[i].1 ==> x.table in catalog
  }

  predicate EntriesResolved(catalog: Catalog, es: seq<Entry>) {
    forall i :: 0 <= i < |es| ==> forall x :: x in es[i].refs ==> x.table in catalog
  }

  /**
    Folds the entries into the index, in order. Its lineage keys are distinct, and
    each one also has a rule and an example.
   */
  function Accumulate(es: seq<Entry>): (idx: Index)
    ensures NoDup(Keys(idx.lineage))
    ensures forall k :: k in Keys(idx.lineage) ==> k in idx.rules && k in idx.examples
    decreases |es|
  {
    if |es| == 0 then Index([], map[], map[])
    else
      var prev := Accumulate(es[..|es| - 1]);
      var e := es[|es| - 1];
      ExtendKeys(prev.lineage, e.key, e.refs);
      ExtendKeepsDistinct(prev.lineage, e.key, e.refs);
      AddEntry(prev, e)
  }

  /**
    Every stored reference list is non-empty and refers to catalog tables only, so
    the catalog lookup of the layout (test.py:61) never fails.
   */
  lemma {:induction false} AccumulateResolved(catalog: Catalog, es: seq<Entry>)
    requires EntriesResolved(catalog, es)
    ensures RefsResolved(catalog, Accumulate(es))
    decreases |es|
  {
    if |es| > 0 {
      var n := |es| - 1;
      assert EntriesResolved(catalog, es[..n]);
      AccumulateResolved(catalog, es[..n]);
      var prev := Accumulate(es[..n]);
      var next := Accumulate(es);
      assert next == AddEntry(prev, es[n]);
      if |es[n].refs| > 0 {
        forall i | 0 <= i < |next.lineage|
          ensures |next.lineage[i].1| > 0 && forall x :: x in next.lineage[i].1 ==> x.table in catalog
        {
          var k' := next.lineage[i].0;
          ExtendLookup(prev.lineage, es[n].key, es[n].refs, k');
          LookupAt(next.lineage, i);
          if k' != es[n].key {
            var j := IndexOf(Keys(prev.lineage), k');
            LookupAt(prev.lineage, j);
          }
        }
      }
    }
  }

  /** The entries read from the rows of all output sheets, in sheet-then-row order. */
  function ReadRows(catalog: Catalog, rows: seq<Row>): (es: seq<Entry>)
    ensures |es| == |rows|
    ensures forall i :: 0 <= i < |rows| ==> es[i] == ReadRow(catalog, rows[i])
    ensures EntriesResolved(catalog, es)
  {
    var es := seq(|rows|, i requires 0 <= i < |rows| => ReadRow(catalog, rows[i]));
    assert EntriesResolved(catalog, es) by {
      forall i | 0 <= i < |es| ensures forall x :: x in es[i].refs ==> x.table in catalog {
        var e := ReadRow(catalog, rows[i]);
        assert es[i] == e;
      }
    }
    es
  }

  /** The lineage index, rules and examples built from all rows (test.py:19-36). */
  function BuildIndex(catalog: Catalog, rows: seq<Row>): Index {
    Accumulate(ReadRows(catalog, rows))
  }

  /** With distinct keys, the lookup of the i-th key returns the i-th value. */
  lemma {:induction false} LookupAt<K, V>(a: seq<(K, V)>, i: nat)
    requires NoDup(Keys(a)) && i < |a|
    ensures Lookup(a, a[i].0) == Some(a[i].1)
    decreases i
  {
    if i > 0 {
      assert a[0].0 != a[i].0;
      assert Keys(a[1..]) == Keys(a)[1..];
      LookupAt(a[1..], i - 1);
    }
  }

  /**
    Reference definition of a lineage entry: the concatenation, in entry order, of the
    references of every entry with key `k`.
   */
  function Collected(es: seq<Entry>, k: Key): seq<Ref>
    decreases |es|
  {
    if |es| == 0 then []
    else
      var n := |es| - 1;
      Collected(es[..n], k) + (if es[n].key == k then es[n].refs else [])
  }

  /**
    The lineage entry of every key is the row-then-token concatenation of the
    references resolved for it, duplicates kept; a key has an entry only when at least
    one of its references resolved (test.py:30-34).
   */
  lemma {:induction false} LineageIsCollected(es: seq<Entry>, k: Key)
    ensures Lookup(Accumulate(es).lineage, k) ==
      if |Collected(es, k)| == 0 then None else Some(Collected(es, k))
    decreases |es|
  {
    if |es| > 0 {
      var n := |es| - 1;
      LineageIsCollected(es[..n], k);
      var prev := Accumulate(es[..n]);
      var e := es[n];
      var c := Collected(es[..n], k);
      assert Accumulate(es).lineage == AddEntry(prev, e).lineage;
      if |e.refs| == 0 || e.key != k {
        assert Collected(es, k) == c;
        if |e.refs| > 0 {
          ExtendLookup(prev.lineage, e.key, e.refs, k);
        }
      } else {
        assert Collected(es, k) == c + e.refs;
        ExtendLookup(prev.lineage, e.key, e.refs, k);
        assert Lookup(prev.lineage, k).GetOr([]) == c;
      }
    }
  }

  /** Collected references are non-empty exactly when some entry with key `k` has one. */
  lemma {:induction false} CollectedNonEmpty(es: seq<Entry>, k: Key)
    ensures |Collected(es, k)| > 0 <==>
      exists i :: 0 <= i < |es| && es[i].key == k && |es[i].refs| > 0
    decreases |es|
  {
    if |es| > 0 {
      var n := |es| - 1;
      CollectedNonEmpty(es[..n], k);
      if exists i :: 0 <= i < n && es[..n][i].key == k && |es[..n][i].refs| > 0 {
        var i :| 0 <= i < n && es[..n][i].key == k && |es[..n][i].refs| > 0;
        assert es[i] == es[..n][i];
      }
      if exists i :: 0 <= i < |es| && es[i].key == k && |es[i].refs| > 0 {
        var i :| 0 <= i < |es| && es[i].key == k && |es[i].refs| > 0;
        if i < n {
          assert es[..n][i] == es[i];
        }
      }
    }
  }

  /**
    Key `k1` has a resolving entry before any entry of key `k2` resolves: the first
    row that gives `k1` a reference comes before the first one that gives `k2` one.
   */
  predicate ResolvedBefore(es: seq<Entry>, k1: Key, k2: Key) {
    exists p :: 0 <= p < |es| && es[p].key == k1 && |es[p].refs| > 0 &&
      forall q :: 0 <= q <= p ==> !(es[q].key == k2 && |es[q].refs| > 0)
  }

  lemma ResolvedBeforePrefix(es: seq<Entry>, n: int, k1: Key, k2: Key)
    requires 0 <= n <= |es| && ResolvedBefore(es[..n], k1, k2)
    ensures ResolvedBefore(es, k1, k2)
  {
    var p :| 0 <= p < n && es[..n][p].key == k1 && |es[..n][p].refs| > 0 &&
      forall q :: 0 <= q <= p ==> !(es[..n][q].key == k2 && |es[..n][q].refs| > 0);
    assert forall q :: 0 <= q <= p ==> es[q] == es[..n][q];
  }

  /**
    The lineage keys are listed in the order in which they first received a resolved
    reference, the order the nested dictionaries of test.py:34 first saw them; the
    slice, and with it each output column's row on the canvas, inherits this order.
   */
  lemma {:induction false} AccumulateOrder(es: seq<Entry>, i: int, j: int)
    requires 0 <= i < j < |Accumulate(es).lineage|
    ensures ResolvedBefore(es, Accumulate(es).lineage[i].0, Accumulate(es).lineage[j].0)
    decreases |es|
  {
    var n := |es| - 1;
    var prev := Accumulate(es[..n]);
    var e := es[n];
    var lin := Accumulate(es).lineage;
    assert lin == AddEntry(prev, e).lineage;
    var k1 := lin[i].0;
    var k2 := lin[j].0;
    if |e.refs| == 0 {
      AccumulateOrder(es[..n], i, j);
      ResolvedBeforePrefix(es, n, k1, k2);
    } else {
      ExtendKeys(prev.lineage, e.key, e.refs);
      assert Keys(lin)[i] == k1 && Keys(lin)[j] == k2;
      if j < |prev.lineage| {
        assert Keys(prev.lineage)[i] == k1 && Keys(prev.lineage)[j] == k2;
        AccumulateOrder(es[..n], i, j);
        ResolvedBeforePrefix(es, n, k1, k2);
      } else {
        assert k2 == e.key && k2 !in Keys(prev.lineage);
        assert k1 == Keys(prev.lineage)[i];
        NewKeyFirstResolvedLast(es[..n], k1, k2);
        ResolvedBeforePrefix(es, n, k1, k2);
      }
    }
  }

  /** A key with a lineage entry resolved before a key without one ever did. */
  lemma NewKeyFirstResolvedLast(es: seq<Entry>, k1: Key, k2: Key)
    requires k1 in Keys(Accumulate(es).lineage) && k2 !in Keys(Accumulate(es).lineage)
    ensures ResolvedBefore(es, k1, k2)
  {
    LineageIsCollected(es, k1);
    CollectedNonEmpty(es, k1);
    LineageIsCollected(es, k2);
    CollectedNonEmpty(es, k2);
    var p :| 0 <= p < |es| && es[p].key == k1 && |es[p].refs| > 0;
  }

  /**
    Rules and examples get an entry for every row's key, whether or not any of its
    references resolved (test.py:35-36).
   */
  lemma {:induction false} RulesForEveryRow(es: seq<Entry>, k: Key)
    ensures k in Accumulate(es).rules <==> exists i :: 0 <= i < |es| && es[i].key == k
    ensures k in Accumulate(es).examples <==> exists i :: 0 <= i < |es| && es[i].key == k
    decreases |es|
  {
    if |es| > 0 {
      var n := |es| - 1;
      var prev := Accumulate(es[..n]);
      assert Accumulate(es) == AddEntry(prev, es[n]);
      RulesForEveryRow(es[..n], k);
      if exists i :: 0 <= i < n && es[..n][i].key == k {
        var i :| 0 <= i < n && es[..n][i].key == k;
        assert es[i] == es[..n][i];
      }
      if exists i :: 0 <= i < |es| && es[i].key == k {
        var i :| 0 <= i < |es| && es[i].key == k;
        if i < n {
          assert es[..n][i] == es[i];
        }
      }
    }
  }

  /**
    The rule and example of a key are those of the last row with that key: repeated
    rows overwrite, where their references are appended (test.py:34-36).
   */
  lemma {:induction false} RulesLastWriteWins(es: seq<Entry>, k: Key, i: int)
    requires LastKeyed(es, i, k)
    ensures k in Accumulate(es).rules && Accumulate(es).rules[k] == es[i].rule
    ensures k in Accumulate(es).examples && Accumulate(es).examples[k] == es[i].example
    decreases |es|
  {
    var n := |es| - 1;
    var prev := Accumulate(es[..n]);
    assert Accumulate(es) == AddEntry(prev, es[n]);
    if i < n {
      assert es[n].key != k;
      assert es[..n][i] == es[i];
      assert LastKeyed(es[..n], i, k) by {
        assert forall j :: i < j < n ==> es[..n][j] == es[j];
      }
      RulesLastWriteWins(es[..n], k, i);
    }
  }

  /** Entry `i` is the last one with key `k`. */
  predicate LastKeyed(es: seq<Entry>, i: int, k: Key) {
    && 0 <= i < |es|
    && es[i].key == k
    && forall j :: i < j < |es| ==> es[j].key != k
  }

  /** The output tables offered for selection: sheets with a lineage entry (test.py:42). */
  function OutputTables(idx: Index): (r: seq<string>)
    ensures NoDup(r)
    ensures forall t :: t in r <==> exists k :: k in Keys(idx.lineage) && k.sheet == t
  {
    var sheets := seq(|idx.lineage|, i requires 0 <= i < |idx.lineage| => idx.lineage[i].0.sheet);
    assert forall t :: t in sheets <==> exists k :: k in Keys(idx.lineage) && k.sheet == t by {
      forall t | (exists k :: k in Keys(idx.lineage) && k.sheet == t) ensures t in sheets {
        var k :| k in Keys(idx.lineage) && k.sheet == t;
        var i :| 0 <= i < |idx.lineage| && Keys(idx.lineage)[i] == k;
        assert sheets[i] == t;
      }
    }
    Distinct(sheets)
  }

  /**
    A sheet is offered exactly when one of its rows resolved at least one reference;
    rows whose references all fail to resolve do not make their sheet selectable.
   */
  lemma OutputTablesOfEntries(es: seq<Entry>, t: string)
    ensures t in OutputTables(Accumulate(es)) <==>
      exists i :: 0 <= i < |es| && es[i].key.sheet == t && |es[i].refs| > 0
  {
    var idx := Accumulate(es);
    if exists i :: 0 <= i < |es| && es[i].key.sheet == t && |es[i].refs| > 0 {
      var i :| 0 <= i < |es| && es[i].key.sheet == t && |es[i].refs| > 0;
      var k := es[i].key;
      CollectedNonEmpty(es, k);
      LineageIsCollected(es, k);
      assert k in Keys(idx.lineage);
    }
    if t in OutputTables(idx) {
      var k :| k in Keys(idx.lineage) && k.sheet == t;
      LineageIsCollected(es, k);
      CollectedNonEmpty(es, k);
    }
  }

  /** The same, stated on the spreadsheet rows. */
  lemma OutputTablesOfBuild(catalog: Catalog, rows: seq<Row>, t: string)
    ensures t in OutputTables(BuildIndex(catalog, rows)) <==>
      exists i :: 0 <= i < |rows| && rows[i].sheet == t && |ResolveRefs(catalog, rows[i].refs)| > 0
  {
    var es := ReadRows(catalog, rows);
    OutputTablesOfEntries(es, t);
    if exists i :: 0 <= i < |es| && es[i].key.sheet == t && |es[i].refs| > 0 {
      var i :| 0 <= i < |es| && es[i].key.sheet == t && |es[i].refs| > 0;
      assert rows[i].sheet == t && |ResolveRefs(catalog, rows[i].refs)| > 0;
    }
    if exists i :: 0 <= i < |rows| && rows[i].sheet == t && |ResolveRefs(catalog, rows[i].refs)| > 0 {
      var i :| 0 <= i < |rows| && rows[i].sheet == t && |ResolveRefs(catalog, rows[i].refs)| > 0;
      assert es[i].key.sheet == t && |es[i].refs| > 0;
    }
  }

  /** The Sor_ids offered for a sheet, in first-seen order (test.py:47). */
  function SorIds(idx: Index, sheet: string): (r: seq<string>)
    ensures NoDup(r)
    ensures forall s :: s in r <==> exists k :: k in Keys(idx.lineage) && k.sheet == sheet && k.sorId == s
  {
    var ids := SorIdsOf(idx.lineage, sheet);
    Distinct(ids)
  }

  function SorIdsOf(a: seq<(Key, seq<Ref>)>, sheet: string): (r: seq<string>)
    ensures forall s :: s in r <==> exists k :: k in Keys(a) && k.sheet == sheet && k.sorId == s
    decreases |a|
  {
    if |a| == 0 then []
    else
      assert Keys(a) == [a[0].0] + Keys(a[1..]);
      (if a[0].0.sheet == sheet then [a[0].0.sorId] else []) + SorIdsOf(a[1..], sheet)
  }

  /**
    The slice shown for one (sheet, Sor_id) selection (test.py:50): output column to
    references, in the order the output columns were first inserted. Its output
    columns are exactly those of the selection's keys.
   */
  function Slice(a: seq<(Key, seq<Ref>)>, sheet: string, sorId: string): (r: seq<(string, seq<Ref>)>)
    ensures forall c {:trigger c in Keys(r)} :: c in Keys(r) <==> Key(sheet, sorId, c) in Keys(a)
    decreases |a|
  {
    if |a| == 0 then []
    else
      var tail := Slice(a[1..], sheet, sorId);
      assert Keys(a) == [a[0].0] + Keys(a[1..]);
      if a[0].0.sheet == sheet && a[0].0.sorId == sorId then
        var r := [(a[0].0.outCol, a[0].1)] + tail;
        assert Keys(r) == [a[0].0.outCol] + Keys(tail);
        r
      else
        tail
  }

  /** Each output column of the slice holds the references stored under its key. */
  lemma {:induction false} SliceLookup(a: seq<(Key, seq<Ref>)>, sheet: string, sorId: string, c: string)
    ensures Lookup(Slice(a, sheet, sorId), c) == Lookup(a, Key(sheet, sorId, c))
    decreases |a|
  {
    if |a| > 0 {
      SliceLookup(a[1..], sheet, sorId, c);
      var tail := Slice(a[1..], sheet, sorId);
      if a[0].0.sheet == sheet && a[0].0.sorId == sorId {
        var r := [(a[0].0.outCol, a[0].1)] + tail;
        assert Slice(a, sheet, sorId) == r;
        assert r[1..] == tail;
      }
    }
  }

  /** Key `k1` occurs in the association list at a position before key `k2`. */
  predicate Before<V>(a: seq<(Key, V)>, k1: Key, k2: Key) {
    exists p, q :: 0 <= p < q < |a| && a[p].0 == k1 && a[q].0 == k2
  }

  lemma BeforeTail<V>(a: seq<(Key, V)>, k1: Key, k2: Key)
    requires |a| > 0 && Before(a[1..], k1, k2)
    ensures Before(a, k1, k2)
  {
    var p, q :| 0 <= p < q < |a[1..]| && a[1..][p].0 == k1 && a[1..][q].0 == k2;
    assert a[p + 1] == a[1..][p] && a[q + 1] == a[1..][q];
  }

  lemma BeforeHead<V>(a: seq<(Key, V)>, k1: Key, k2: Key)
    requires |a| > 0 && a[0].0 == k1 && k2 in Keys(a[1..])
    ensures Before(a, k1, k2)
  {
    var q := IndexOf(Keys(a[1..]), k2);
    assert a[q + 1] == a[1..][q];
  }

  /**
    The slice keeps the order of the index: its i-th output column's key comes before
    its j-th one's among the index's keys, so output column j is drawn at row j
    (test.py:53, 86-87) in the order the index first saw the columns.
   */
  lemma {:induction false} SliceOrder(a: seq<(Key, seq<Ref>)>, sheet: string, sorId: string, i: int, j: int)
    requires 0 <= i < j < |Slice(a, sheet, sorId)|
    ensures Before(a, Key(sheet, sorId, Slice(a, sheet, sorId)[i].0), Key(sheet, sorId, Slice(a, sheet, sorId)[j].0))
    decreases |a|
  {
    var r := Slice(a, sheet, sorId);
    var tail := Slice(a[1..], sheet, sorId);
    var k1, k2 := Key(sheet, sorId, r[i].0), Key(sheet, sorId, r[j].0);
    if a[0].0.sheet == sheet && a[0].0.sorId == sorId {
      assert r == [(a[0].0.outCol, a[0].1)] + tail;
      assert r[j] == tail[j - 1];
      if i == 0 {
        assert Keys(tail)[j - 1] == tail[j - 1].0;
        assert tail[j - 1].0 in Keys(tail);
        BeforeHead(a, k1, k2);
      } else {
        assert k1 == Key(sheet, sorId, tail[i - 1].0) && k2 == Key(sheet, sorId, tail[j - 1].0);
        assert Before(a[1..], k1, k2) by {
          SliceOrder(a[1..], sheet, sorId, i - 1, j - 1);
        }
        BeforeTail(a, k1, k2);
      }
    } else {
      assert r == tail;
      assert k1 == Key(sheet, sorId, tail[i].0) && k2 == Key(sheet, sorId, tail[j].0);
      assert Before(a[1..], k1, k2) by {
        SliceOrder(a[1..], sheet, sorId, i, j);
      }
      BeforeTail(a, k1, k2);
    }
  }

  /**
    Output column i of a selection's slice comes before output column j exactly in the
    order in which the rows first gave their keys a resolved reference.
   */
  lemma SliceFollowsRows(es: seq<Entry>, sheet: string, sorId: string, i: int, j: int)
    requires 0 <= i < j < |Slice(Accumulate(es).lineage, sheet, sorId)|
    ensures ResolvedBefore(es,
      Key(sheet, sorId, Slice(Accumulate(es).lineage, sheet, sorId)[i].0),
      Key(sheet, sorId, Slice(Accumulate(es).lineage, sheet, sorId)[j].0))
  {
    var lin := Accumulate(es).lineage;
    var r := Slice(lin, sheet, sorId);
    SliceOrder(lin, sheet, sorId, i, j);
    var p, q :| 0 <= p < q < |lin| && lin[p].0 == Key(sheet, sorId, r[i].0) && lin[q].0 == Key(sheet, sorId, r[j].0);
    AccumulateOrder(es, p, q);
  }

  /** No key resolves before another and the other before it; in particular no key resolves before itself. */
  lemma ResolvedBeforeAsymmetric(es: seq<Entry>, k1: Key, k2: Key)
    requires ResolvedBefore(es, k1, k2)
    ensures !ResolvedBefore(es, k2, k1)
  {
    var p :| 0 <= p < |es| && es[p].key == k1 && |es[p].refs| > 0 &&
      forall q :: 0 <= q <= p ==> !(es[q].key == k2 && |es[q].refs| > 0);
  }

  /**
    The converse of `SliceFollowsRows`: when the key of output column i first resolved
    before that of output column j, column i is drawn above column j.
   */
  lemma SliceRowsFollowSlice(es: seq<Entry>, sheet: string, sorId: string, i: int, j: int)
    requires 0 <= i < |Slice(Accumulate(es).lineage, sheet, sorId)|
    requires 0 <= j < |Slice(Accumulate(es).lineage, sheet, sorId)|
    requires ResolvedBefore(es,
      Key(sheet, sorId, Slice(Accumulate(es).lineage, sheet, sorId)[i].0),
      Key(sheet, sorId, Slice(Accumulate(es).lineage, sheet, sorId)[j].0))
    ensures i < j
  {
    var r := Slice(Accumulate(es).lineage, sheet, sorId);
    var k1, k2 := Key(sheet, sorId, r[i].0), Key(sheet, sorId, r[j].0);
    ResolvedBeforeAsymmetric(es, k1, k2);
    if j < i {
      SliceFollowsRows(es, sheet, sorId, j, i);
    }
  }

  /** A slice of an index with distinct keys lists each output column once. */
  lemma {:induction false} SliceDistinct(a: seq<(Key, seq<Ref>)>, sheet: string, sorId: string)
    requires NoDup(Keys(a))
    ensures NoDup(Keys(Slice(a, sheet, sorId)))
    decreases |a|
  {
    if |a| > 0 {
      assert Keys(a) == [a[0].0] + Keys(a[1..]);
      assert Keys(a[1..]) == Keys(a)[1..];
      SliceDistinct(a[1..], sheet, sorId);
      var tail := Slice(a[1..], sheet, sorId);
      if a[0].0.sheet == sheet && a[0].0.sorId == sorId {
        assert a[0].0 == Key(sheet, sorId, a[0].0.outCol);
        assert a[0].0 !in Keys(a[1..]);
        assert a[0].0.outCol !in Keys(tail);
        var r := [(a[0].0.outCol, a[0].1)] + tail;
        assert Keys(r) == [a[0].0.outCol] + Keys(tail);
      }
    }
  }

  /** The rules (or examples) of one (sheet, Sor_id) selection, per output column. */
  function SliceText(m: map<Key, string>, sheet: string, sorId: string): (r: map<string, string>)
    ensures forall c :: c in r <==> Key(sheet, sorId, c) in m
    ensures forall c :: c in r ==> r[c] == m[Key(sheet, sorId, c)]
  {
    map k | k in m && k.sheet == sheet && k.sorId == sorId :: k.outCol := m[k]
  }
}

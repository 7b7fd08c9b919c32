/**
  Concrete runs of the model on small inputs: an output sheet `orders` whose column
  `cust_name` reads from an input table `customers` with columns `id` and `name`.
  Each concrete fact is kept in its own small lemma, and the general helpers below
  carry the reasoning.
 */
module Scenarios {
  import opened Wrappers
  import opened Text
  import opened Assoc
  import opened Lineage
  import opened Layout
  import opened Highlight

  const Customers: Catalog := map["customers" := ["id", "name"]]
  const CustNameSlice: seq<(string, seq<Ref>)> := [("cust_name", [Ref("customers", "name")])]

  // General helpers

  /** A string with no blank at either end is its own strip. */
  lemma StripClean(s: string, ws: char -> bool)
    requires |s| > 0 && !ws(s[0]) && !ws(s[|s| - 1])
    ensures Strip(s, ws) == s
  {
  }

  /** A string without capitals is its own lower-case form. */
  lemma LowerClean(s: string)
    requires forall i :: 0 <= i < |s| ==> !IsUpper(s[i])
    ensures Lower(s) == s
  {
  }

  /** A token with no surrounding blanks and no capitals is read as written. */
  lemma CleanToken(tok: string)
    requires |tok| > 0 && !IsPyWhitespace(tok[0]) && !IsPyWhitespace(tok[|tok| - 1])
    requires forall i :: 0 <= i < |tok| ==> !IsUpper(tok[i])
    ensures Lower(PyStrip(tok)) == tok
  {
    StripClean(tok, IsPyWhitespace);
    LowerClean(tok);
  }

  /** A token that names a reference resolves to it. */
  lemma NamedResolves(catalog: Catalog, tok: string, ref: Ref)
    ensures Names(catalog, tok, ref) ==> ResolveToken(catalog, tok) == Some(ref)
  {
  }

  /** A token whose table part is not a catalog key resolves to nothing. */
  lemma UnknownUnresolved(catalog: Catalog, tok: string, table: string, column: string)
    ensures Lower(PyStrip(tok)) == table + "." + column && '.' !in table && table !in catalog ==>
      ResolveToken(catalog, tok) == None
  {
    var r := ResolveToken(catalog, tok);
    if Lower(PyStrip(tok)) == table + "." + column && '.' !in table && table !in catalog && r.Some? {
      assert Names(catalog, tok, r.value);
      SplitFirstUnique(Lower(PyStrip(tok)), '.', r.value.table, r.value.column);
      SplitFirstUnique(Lower(PyStrip(tok)), '.', table, column);
    }
  }

  /** A two-line cell resolves line by line. */
  lemma TwoLines(catalog: Catalog, a: string, b: string)
    requires '\n' !in a && '\n' !in b
    ensures ResolveRefs(catalog, a + "\n" + b) == ResolveAll(catalog, [a]) + ResolveAll(catalog, [b])
  {
    var parts := [a, b];
    assert Join(parts[1..], '\n') == b;
    assert Join(parts, '\n') == a + "\n" + b;
    SplitJoin(parts, '\n');
    assert parts == [a] + [b];
    ResolveAllAppend(catalog, [a], [b]);
  }

  /**
    Two rows for the same output column, each with some resolved reference: the
    references of both are kept in row order, while rule and example are the second
    row's (test.py:34-36).
   */
  lemma TwoEntriesSameKey(e0: Entry, e1: Entry)
    requires e0.key == e1.key && |e0.refs| > 0 && |e1.refs| > 0
    ensures Lookup(Accumulate([e0, e1]).lineage, e0.key) == Some(e0.refs + e1.refs)
    ensures Accumulate([e0, e1]).rules[e0.key] == e1.rule
    ensures Accumulate([e0, e1]).examples[e0.key] == e1.example
  {
    var es := [e0, e1];
    assert es[..1] == [e0];
    assert [e0][..0] == [];
    assert Accumulate([e0][..0]) == Index([], map[], map[]);
    var first := Accumulate([e0]);
    assert first.lineage == Extend([], e0.key, e0.refs);
    ExtendLookup([], e0.key, e0.refs, e0.key);
    ExtendLookup(first.lineage, e0.key, e1.refs, e0.key);
  }

  /** A slice of one output column with one reference refers to that reference's table. */
  lemma OneRefTables(o: string, r: Ref)
    ensures ReferencedTables([(o, [r])]) == {r.table}
  {
    var slice := [(o, [r])];
    assert r in slice[0].1;
  }

  /** Such a slice draws one path if the reference's id was laid out, and none otherwise. */
  lemma OneRefPaths(o: string, r: Ref, pos: map<string, (int, int)>)
    ensures SlicePaths([(o, [r])], pos) ==
      if CellId(r.table, r.column) in pos
      then [MakePath(o, CellId(r.table, r.column), pos[CellId(r.table, r.column)], StartY)]
      else []
  {
    var slice := [(o, [r])];
    assert slice[..0] == [];
    assert [r][1..] == [];
    assert SlicePaths(slice, pos) == SlicePaths(slice[..0], pos) + ColumnPaths(o, StartY, [r], pos);
    assert ColumnPaths(o, StartY, [r][1..], pos) == [];
  }

  /** Selecting one column from nothing selects it, and its paths turn the first colour. */
  lemma SelectOne(c: string, paths: seq<Path>, rules: map<string, string>, examples: map<string, string>)
    ensures Step([], Toggle(c)) == [c]
    ensures forall k :: 0 <= k < |paths| && paths[k].owner == c ==>
      Render([c], paths, rules, examples).paths[k] == PathStyle(true, Palette[0])
  {
    assert IndexOf([], c) == -1;
    forall k | 0 <= k < |paths| && paths[k].owner == c
      ensures Render([c], paths, rules, examples).paths[k] == PathStyle(true, Palette[0])
    {
      assert IndexOf([c], c) == 0;
    }
  }

  /** The output column in slot `i` is painted with the slot's colour. */
  lemma OutputSlot(sel: Selection, paths: seq<Path>, rules: map<string, string>, examples: map<string, string>, i: int)
    requires 0 <= i < |sel|
    ensures |Render(sel, paths, rules, examples).outputs| == |sel|
    ensures Render(sel, paths, rules, examples).outputs[i] == (sel[i], Palette[i % 6])
  {
  }

  /** Toggling the middle one of three distinct columns leaves the outer two. */
  lemma RemoveMiddle(a: string, b: string, c: string)
    requires a != b && b != c && a != c
    ensures Step([a, b, c], Toggle(b)) == [a, c]
  {
    var sel := [a, b, c];
    assert IndexOf(sel, b) == 1;
    assert sel[..1] + sel[2..] == [a, c];
  }

  /**
    With `a`, `b`, `c` selected, `c` has the third colour; once `b` is toggled off, `c`
    moves to slot 1 and takes the second colour (test.py:113-126).
   */
  lemma DropMiddle(a: string, b: string, c: string, paths: seq<Path>, rules: map<string, string>, examples: map<string, string>)
    requires a != b && b != c && a != c
    ensures Render([a, b, c], paths, rules, examples).outputs[2] == (c, Palette[2])
    ensures Render(Step([a, b, c], Toggle(b)), paths, rules, examples).outputs == [(a, Palette[0]), (c, Palette[1])]
  {
    assert 0 % 6 == 0 && 1 % 6 == 1 && 2 % 6 == 2;
    OutputSlot([a, b, c], paths, rules, examples, 2);
    RemoveMiddle(a, b, c);
    OutputSlot([a, c], paths, rules, examples, 0);
    OutputSlot([a, c], paths, rules, examples, 1);
  }

  // Reference resolution

  lemma CustomerNameClean()
    ensures Lower(PyStrip("customers.name")) == "customers.name"
  {
    CleanToken("customers.name");
  }

  lemma CustomerNameNamed()
    ensures Names(Customers, "customers.name", Ref("customers", "name"))
  {
    CustomerNameClean();
    CustomerNameParts();
  }

  lemma CustomerNameParts()
    ensures "customers" + "." + "name" == "customers.name"
  {
  }

  /** The token `customers.name` resolves to column `name` of `customers`. */
  lemma CustomerNameResolves()
    ensures ResolveToken(Customers, "customers.name") == Some(Ref("customers", "name"))
  {
    CustomerNameNamed();
    NamedResolves(Customers, "customers.name", Ref("customers", "name"));
  }

  lemma CustomerIdClean()
    ensures Lower(PyStrip("customers.id")) == "customers.id"
  {
    CleanToken("customers.id");
  }

  lemma CustomerIdNamed()
    ensures Names(Customers, "customers.id", Ref("customers", "id"))
  {
    CustomerIdClean();
    CustomerIdParts();
  }

  lemma CustomerIdParts()
    ensures "customers" + "." + "id" == "customers.id"
  {
  }

  lemma UnknownClean()
    ensures Lower(PyStrip("unknown_table.x")) == "unknown_table.x"
  {
    CleanToken("unknown_table.x");
  }

  lemma UnknownParts()
    ensures "unknown_table.x" == "unknown_table" + "." + "x"
  {
  }

  /** A token naming a table outside the catalog resolves to nothing. */
  lemma UnknownTableIgnored()
    ensures ResolveToken(Customers, "unknown_table.x") == None
  {
    UnknownClean();
    UnknownParts();
    UnknownUnresolved(Customers, "unknown_table.x", "unknown_table", "x");
  }

  /**
    The cell `unknown_table.x` / `customers.id` on two lines resolves to the single
    reference `customers.id`: the unknown table is dropped, not kept as a second item.
   */
  lemma MixedCellKeepsKnownTable()
    ensures ResolveRefs(Customers, "unknown_table.x\ncustomers.id") == [Ref("customers", "id")]
  {
    var a, b := "unknown_table.x", "customers.id";
    assert a + "\n" + b == "unknown_table.x\ncustomers.id";
    TwoLines(Customers, a, b);
    UnknownTableIgnored();
    CustomerIdNamed();
    NamedResolves(Customers, b, Ref("customers", "id"));
  }

  // Layout

  /** The anchor of `customers.name`: the second row of the only block. */
  lemma CustNameAnchor()
    ensures "customers_name" in Positions(AllCells(StackBlocks(Customers, ["customers"], StartY)))
    ensures Positions(AllCells(StackBlocks(Customers, ["customers"], StartY)))["customers_name"] == (170, 95)
  {
    var order := ["customers"];
    var blocks := StackBlocks(Customers, order, StartY);
    StackShape(Customers, order, StartY, 0);
    var b := blocks[0];
    assert BlockOf("customers", ["id", "name"], b);
    assert blocks[1..] == [];
    var cells := AllCells(blocks);
    assert AllCells(blocks[1..]) == [];
    assert cells == b.cells;
    var id := CellId("customers", "name");
    assert id == "customers_name";
    assert cells[1] == Cell("customers", "name", id, 170, 95);
    assert LastWithId(cells, 1, id);
    PositionsLastWins(cells, 1, id);
  }

  /**
    Laying out `cust_name <- customers.name` draws one path, from the anchor of
    `customers.name` (y = 95) to the first output row (y = 60).
   */
  lemma CustNameLayout()
    ensures IsTableOrder(Customers, CustNameSlice, ["customers"])
    ensures Layout.Layout(Customers, CustNameSlice, ["customers"]).paths ==
      [Path("cust_name", "customers_name", 170, 95, 445, 720, 60)]
  {
    CustNameOrder();
    CustNamePaths();
  }

  lemma CustNameOrder()
    ensures IsTableOrder(Customers, CustNameSlice, ["customers"])
  {
    OneRefTables("cust_name", Ref("customers", "name"));
  }

  lemma CustNamePaths()
    ensures SlicePaths(CustNameSlice, Positions(AllCells(StackBlocks(Customers, ["customers"], StartY)))) ==
      [Path("cust_name", "customers_name", 170, 95, 445, 720, 60)]
  {
    CustNameAnchor();
    assert CellId("customers", "name") == "customers_name";
    var pos := Positions(AllCells(StackBlocks(Customers, ["customers"], StartY)));
    OneRefPaths("cust_name", Ref("customers", "name"), pos);
  }

  const MixedCase: Catalog := map["customers" := ["Name"]]

  /**
    A catalog column spelled `Name` is laid out under the id `customers_Name`, while
    the reference, lower-cased by the builder, looks for `customers_name`: no path
    is drawn.
   */
  lemma MixedCaseColumnHasNoPath()
    ensures IsTableOrder(MixedCase, CustNameSlice, ["customers"])
    ensures Layout.Layout(MixedCase, CustNameSlice, ["customers"]).paths == []
  {
    MixedCaseOrder();
    MixedCasePaths();
  }

  lemma MixedCaseOrder()
    ensures IsTableOrder(MixedCase, CustNameSlice, ["customers"])
  {
    OneRefTables("cust_name", Ref("customers", "name"));
  }

  lemma MixedCasePaths()
    ensures SlicePaths(CustNameSlice, Positions(AllCells(StackBlocks(MixedCase, ["customers"], StartY)))) == []
  {
    var order := ["customers"];
    var id := CellId("customers", "name");
    LaidOutIds(MixedCase, order, StartY, id);
    assert CellId(order[0], MixedCase[order[0]][0]) == "customers_Name";
    assert id == "customers_name";
    assert id != "customers_Name";
    var blocks := StackBlocks(MixedCase, order, StartY);
    OneRefPaths("cust_name", Ref("customers", "name"), Positions(AllCells(blocks)));
  }

  // Highlighting

  const CustPaths: seq<Path> := [Path("cust_name", "customers_name", 170, 95, 445, 720, 60)]
  const CustRules: map<string, string> := map["cust_name" := "direct copy"]
  const CustExamples: map<string, string> := map["cust_name" := "'Alice'"]

  /** Clicking `cust_name` shows its one path, in the first colour. */
  lemma CustNamePathShown()
    ensures Render(Step([], Toggle("cust_name")), CustPaths, CustRules, CustExamples).paths
      == [PathStyle(true, "#66ff66")]
  {
    SelectOne("cust_name", CustPaths, CustRules, CustExamples);
  }

  lemma CustNameRuleText()
    ensures [Marker] + " Output Column: " + "cust_name" + "\n- " + "Rule" + ": " + "direct copy"
      == [Marker] + " Output Column: cust_name\n- Rule: direct copy"
  {
  }

  /** Clicking `cust_name` shows the rule panel with its rule `direct copy`. */
  lemma CustNameRulePanel()
    ensures Render(Step([], Toggle("cust_name")), CustPaths, CustRules, CustExamples).rule
      == Shown([Marker] + " Output Column: cust_name\n- Rule: direct copy")
  {
    SelectOne("cust_name", CustPaths, CustRules, CustExamples);
    assert TextOf(CustRules, "cust_name") == "direct copy";
    SingleColumnPanel("cust_name", CustRules, "Rule");
    CustNameRuleText();
  }
}

/** The catalogue records as text: what the output operators print and what the input operators make of it. */
module CatalogueText {
  import opened Catalogue

  function Flag(b: bool): int
  {
    if b then 1 else 0
  }

  // ---------------------------------------------------------------- what is printed

  function EmitCol(c: ColMeta): string
  {
    c.tab + " " + c.name + " " + Num(c.kind) + " " + Num(c.len) + " " + Num(c.offset) + " " + Num(Flag(c.index))
  }

  function EmitIndexCols(cols: seq<ColMeta>): string
  {
    if cols == [] then "" else "\n" + EmitCol(cols[0]) + EmitIndexCols(cols[1..])
  }

  function EmitIndex(ix: IndexMeta): string
  {
    ix.tab + " " + Num(ix.totLen) + " " + Num(ix.colNum) + EmitIndexCols(ix.cols)
  }

  function EmitColLines(cols: seq<ColMeta>): string
  {
    if cols == [] then "" else EmitCol(cols[0]) + "\n" + EmitColLines(cols[1..])
  }

  function EmitIndexLines(ixs: seq<IndexMeta>): string
  {
    if ixs == [] then "" else EmitIndex(ixs[0]) + "\n" + EmitIndexLines(ixs[1..])
  }

  function EmitTab(t: TabMeta): string
  {
    t.name + "\n" + Num(|t.cols|) + "\n" + EmitColLines(t.cols) + Num(|t.indexes|) + "\n" + EmitIndexLines(t.indexes)
  }

  function EmitTabs(ts: seq<TabMeta>): string
  {
    if ts == [] then "" else EmitTab(ts[0]) + "\n" + EmitTabs(ts[1..])
  }

  /** The tables in the order the catalogue's map gives them. */
  function EmitDb(name: string, ts: seq<TabMeta>): string
  {
    name + "\n" + Num(|ts|) + "\n" + EmitTabs(ts)
  }

  // ---------------------------------------------------------------- the same as items

  ghost function ColItems(c: ColMeta, sep: string): seq<Item>
  {
    [Item(sep, c.tab), Item(" ", c.name), Item(" ", Num(c.kind)), Item(" ", Num(c.len)), Item(" ", Num(c.offset)),
      Item(" ", Num(Flag(c.index)))]
  }

  ghost function ColsItems(cols: seq<ColMeta>): seq<Item>
  {
    if cols == [] then [] else ColItems(cols[0], "\n") + ColsItems(cols[1..])
  }

  ghost function IndexHead(ix: IndexMeta, sep: string): seq<Item>
  {
    [Item(sep, ix.tab), Item(" ", Num(ix.totLen)), Item(" ", Num(ix.colNum))]
  }

  ghost function IndexItems(ix: IndexMeta, sep: string): seq<Item>
  {
    IndexHead(ix, sep) + ColsItems(ix.cols)
  }

  ghost function IndexesItems(ixs: seq<IndexMeta>): seq<Item>
  {
    if ixs == [] then [] else IndexItems(ixs[0], "\n") + IndexesItems(ixs[1..])
  }

  ghost function TabItems(t: TabMeta, sep: string): seq<Item>
  {
    [Item(sep, t.name), Item("\n", Num(|t.cols|))]
      + (ColsItems(t.cols) + ([Item("\n", Num(|t.indexes|))] + IndexesItems(t.indexes)))
  }

  ghost function TabsItems(ts: seq<TabMeta>, sep: string): seq<Item>
  {
    if ts == [] then [] else TabItems(ts[0], sep) + TabsItems(ts[1..], "\n\n")
  }

  ghost function DbItems(name: string, ts: seq<TabMeta>): seq<Item>
  {
    [Item("", name), Item("\n", Num(|ts|))] + TabsItems(ts, "\n")
  }

  // ---------------------------------------------------------------- the text is the items

  /** A line and the lines after it. */
  lemma LineStep(x: string, y: string, end: string, sep: string, c: string, gap: string, more: string)
    requires x == sep + c && y + end == gap + more
    ensures x + y + end == sep + (c + gap + more)
  {
    Chain3(x, y, end);
    Chain3(sep, c, gap + more);
    Chain3(c, gap, more);
  }

  lemma EmitOne(it: Item)
    ensures Emit([it]) == it.sep + it.word
  {
    assert [it][1..] == [];
    assert Emit([it][1..]) == "";
  }

  lemma EmitCons(it: Item, more: seq<Item>)
    ensures Emit([it] + more) == it.sep + it.word + Emit(more)
  {
    assert ([it] + more)[1..] == more;
  }

  /** Words with a space before each, after a first one. */
  lemma ColText(c: ColMeta, sep: string)
    ensures Emit(ColItems(c, sep)) == sep + EmitCol(c)
  {
    var i1, i2, i3 := Item(sep, c.tab), Item(" ", c.name), Item(" ", Num(c.kind));
    var i4, i5, i6 := Item(" ", Num(c.len)), Item(" ", Num(c.offset)), Item(" ", Num(Flag(c.index)));
    Emit3(i4, i5, i6);
    Emit3(i1, i2, i3);
    EmitConcat([i1, i2, i3], [i4, i5, i6]);
    assert ColItems(c, sep) == [i1, i2, i3] + [i4, i5, i6];
    SixWords(sep, c.tab, c.name, Num(c.kind), Num(c.len), Num(c.offset), Num(Flag(c.index)));
  }

  lemma Emit3(a: Item, b: Item, c: Item)
    ensures Emit([a, b, c]) == a.sep + a.word + (b.sep + b.word + (c.sep + c.word))
  {
    EmitOne(c);
    EmitCons(b, [c]);
    EmitCons(a, [b] + [c]);
    assert [a, b, c] == [a] + ([b] + [c]);
  }

  lemma SixWords(sep: string, a: string, b: string, c: string, d: string, e: string, f: string)
    ensures (sep + a + (" " + b + (" " + c))) + (" " + d + (" " + e + (" " + f)))
      == sep + (a + " " + b + " " + c + " " + d + " " + e + " " + f)
  {
    var l := a + " " + b + " " + c;
    assert sep + a + (" " + b + (" " + c)) == sep + l;
    var r := " " + d + (" " + e + (" " + f));
    assert l + r == l + " " + d + " " + e + " " + f;
    Chain3(sep, l, r);
  }

  lemma {:induction false} IndexColsText(cols: seq<ColMeta>)
    ensures Emit(ColsItems(cols)) == EmitIndexCols(cols)
  {
    if cols != [] {
      ColText(cols[0], "\n");
      IndexColsText(cols[1..]);
      EmitConcat(ColItems(cols[0], "\n"), ColsItems(cols[1..]));
    }
  }

  lemma {:induction false} ColLinesText(cols: seq<ColMeta>)
    ensures Emit(ColsItems(cols)) + "\n" == "\n" + EmitColLines(cols)
  {
    if cols != [] {
      ColText(cols[0], "\n");
      ColLinesText(cols[1..]);
      EmitConcat(ColItems(cols[0], "\n"), ColsItems(cols[1..]));
      LineStep(Emit(ColItems(cols[0], "\n")), Emit(ColsItems(cols[1..])), "\n", "\n", EmitCol(cols[0]), "\n",
        EmitColLines(cols[1..]));
    }
  }

  lemma IndexText(ix: IndexMeta, sep: string)
    ensures Emit(IndexItems(ix, sep)) == sep + EmitIndex(ix)
  {
    var i1, i2, i3 := Item(sep, ix.tab), Item(" ", Num(ix.totLen)), Item(" ", Num(ix.colNum));
    Emit3(i1, i2, i3);
    IndexColsText(ix.cols);
    EmitConcat(IndexHead(ix, sep), ColsItems(ix.cols));
    IndexConcat(sep, ix.tab, Num(ix.totLen), Num(ix.colNum), EmitIndexCols(ix.cols));
  }

  lemma IndexConcat(sep: string, a: string, b: string, c: string, d: string)
    ensures (sep + a + (" " + b + (" " + c))) + d == sep + (a + " " + b + " " + c + d)
  {
    var l := a + " " + b + " " + c;
    assert sep + a + (" " + b + (" " + c)) == sep + l;
    Chain3(sep, l, d);
  }

  lemma {:induction false} IndexLinesText(ixs: seq<IndexMeta>)
    ensures Emit(IndexesItems(ixs)) + "\n" == "\n" + EmitIndexLines(ixs)
  {
    if ixs != [] {
      IndexText(ixs[0], "\n");
      IndexLinesText(ixs[1..]);
      EmitConcat(IndexItems(ixs[0], "\n"), IndexesItems(ixs[1..]));
      LineStep(Emit(IndexItems(ixs[0], "\n")), Emit(IndexesItems(ixs[1..])), "\n", "\n", EmitIndex(ixs[0]), "\n",
        EmitIndexLines(ixs[1..]));
    }
  }

  lemma TabText(t: TabMeta, sep: string)
    ensures Emit(TabItems(t, sep)) + "\n" == sep + EmitTab(t)
  {
    var i1, i2, i3 := Item(sep, t.name), Item("\n", Num(|t.cols|)), Item("\n", Num(|t.indexes|));
    var cs, xs := ColsItems(t.cols), IndexesItems(t.indexes);
    EmitOne(i2);
    EmitCons(i1, [i2]);
    EmitCons(i3, xs);
    EmitConcat(cs, [i3] + xs);
    EmitConcat([i1] + [i2], cs + ([i3] + xs));
    assert TabItems(t, sep) == ([i1] + [i2]) + (cs + ([i3] + xs));
    ColLinesText(t.cols);
    IndexLinesText(t.indexes);
    TabConcat(sep, t.name, Num(|t.cols|), Emit(cs), EmitColLines(t.cols), Num(|t.indexes|), Emit(xs),
      EmitIndexLines(t.indexes));
  }

  lemma TabConcat(sep: string, name: string, n: string, cs: string, cl: string, m: string, xs: string, xl: string)
    requires cs + "\n" == "\n" + cl && xs + "\n" == "\n" + xl
    ensures (sep + name + ("\n" + n)) + (cs + ("\n" + m + xs)) + "\n"
      == sep + (name + "\n" + n + "\n" + cl + m + "\n" + xl)
  {
    assert cs + ("\n" + m + xs) + "\n" == (cs + "\n") + m + (xs + "\n");
    assert sep + name + ("\n" + n) + (("\n" + cl) + m + ("\n" + xl))
      == sep + (name + "\n" + n + "\n" + cl + m + "\n" + xl);
  }

  lemma {:induction false} TabsText(ts: seq<TabMeta>, sep: string)
    ensures Emit(TabsItems(ts, sep)) + (if ts == [] then sep else "\n\n") == sep + EmitTabs(ts)
  {
    if ts != [] {
      TabText(ts[0], sep);
      TabsText(ts[1..], "\n\n");
      EmitConcat(TabItems(ts[0], sep), TabsItems(ts[1..], "\n\n"));
      TabsStep(Emit(TabItems(ts[0], sep)), Emit(TabsItems(ts[1..], "\n\n")), sep, EmitTab(ts[0]), EmitTabs(ts[1..]));
    }
  }

  lemma TabsStep(x: string, y: string, sep: string, t: string, more: string)
    requires x + "\n" == sep + t && y + "\n\n" == "\n\n" + more
    ensures x + y + "\n\n" == sep + (t + "\n" + more)
  {
    Chain3(x, y, "\n\n");
    assert x + ("\n\n" + more) == (x + "\n") + ("\n" + more);
    Chain3(sep, t, "\n" + more);
    Chain3(t, "\n", more);
  }

  lemma DbText(name: string, ts: seq<TabMeta>)
    ensures Emit(DbItems(name, ts)) + (if ts == [] then "\n" else "\n\n") == EmitDb(name, ts)
  {
    var i1, i2, xs := Item("", name), Item("\n", Num(|ts|)), TabsItems(ts, "\n");
    EmitOne(i2);
    EmitCons(i1, [i2]);
    EmitConcat([i1] + [i2], xs);
    assert DbItems(name, ts) == ([i1] + [i2]) + xs;
    TabsText(ts, "\n");
    DbConcat(name, Num(|ts|), Emit(xs), if ts == [] then "\n" else "\n\n", EmitTabs(ts));
  }

  lemma DbConcat(name: string, n: string, xs: string, trail: string, more: string)
    requires xs + trail == "\n" + more
    ensures ("" + name + ("\n" + n)) + xs + trail == name + "\n" + n + "\n" + more
  {
    var l := name + "\n" + n;
    assert "" + name + ("\n" + n) == l;
    Chain3(l, xs, trail);
    Chain3(l, "\n", more);
  }

  /** A column, an index head, a table and a catalogue, letter by letter. */
  lemma Sample()
    ensures EmitCol(ColMeta("t", "id", 0, 4, 8, true)) == "t id 0 4 8 1"
    ensures EmitIndex(IndexMeta("t", 16, 1, [])) == "t 16 1"
    ensures EmitTab(TabMeta("t", [], [])) == "t\n0\n0\n"
    ensures EmitDb("db", []) == "db\n0\n"
  {
    assert Digits(16) == Digits(1) + [Digit(6)];
  }
}

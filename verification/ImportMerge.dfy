/**
  Merging of duplicate imports (scripts/sync-agent-host-protocol.ts,
  `mergeDuplicateImports`), from parsed lines to parsed lines.

  The program keeps a list of texts in which an import is represented by a placeholder
  text, and replaces the placeholders at the end.
*/
module ImportMerge {
  import opened Basics

  datatype Ident = Ident(text: string)

  /** A name in the braces of a value import: plain, or with the `type` modifier. */
  datatype Spec = Plain(name: Ident) | TypeOnly(name: Ident)

  datatype Module = Module(path: string)

  datatype Line =
    | TypeImport(types: seq<Ident>, from: Module)
    | ValueImport(specs: seq<Spec>, from: Module)
    | Other(text: string)

  predicate IsImportOf(line: Line, m: Module) { !line.Other? && line.from == m }

  const PLACEHOLDER: string := "__IMPORT_PLACEHOLDER__"

  predicate HasPlaceholder(text: string) { PLACEHOLDER <= text }

  function PlaceholderFor(m: Module): string { PLACEHOLDER + m.path }

  function ModuleIn(text: string): Module
    requires HasPlaceholder(text)
  {
    Module(text[|PLACEHOLDER|..])
  }

  lemma PlaceholderNamesModule(m: Module)
    ensures HasPlaceholder(PlaceholderFor(m)) && ModuleIn(PlaceholderFor(m)) == m
  {
  }

  // ----- distinct elements, in order of first occurrence -----

  function Unique<T(==, !new)>(s: seq<T>): (r: seq<T>)
    ensures forall x :: x in r <==> x in s
    ensures forall i, j :: 0 <= i < j < |r| ==> r[i] != r[j]
    ensures |r| <= |s|
  {
    if s == [] then []
    else
      var u := Unique(s[..|s| - 1]);
      assert s == s[..|s| - 1] + [s[|s| - 1]];
      if s[|s| - 1] in u then u else u + [s[|s| - 1]]
  }

  /** Elements come in the order of their first occurrence. */
  lemma UniqueNext<T(!new)>(s: seq<T>, x: T)
    ensures Unique<T>([]) == [] && Unique(s + [x]) == if x in s then Unique(s) else Unique(s) + [x]
  {
    assert (s + [x])[..|s|] == s;
  }

  ghost predicate NoDup<T>(s: seq<T>) { forall i, j :: 0 <= i < j < |s| ==> s[i] != s[j] }

  lemma {:induction false} UniqueFixes<T(!new)>(s: seq<T>)
    ensures Unique(s) == s <==> NoDup(s)
  {
    if s != [] && NoDup(s) {
      UniqueFixes(s[..|s| - 1]);
      assert s == s[..|s| - 1] + [s[|s| - 1]];
    }
  }

  // ----- what lines say -----

  /** The names that type imports of a module list, in order. */
  function Types(lines: seq<Line>, m: Module): seq<Ident> {
    if lines == [] then []
    else
      var last := lines[|lines| - 1];
      Types(lines[..|lines| - 1], m) + (if last.TypeImport? && last.from == m then last.types else [])
  }

  /** The names that value imports of a module list, in order. */
  function Values(lines: seq<Line>, m: Module): seq<Spec> {
    if lines == [] then []
    else
      var last := lines[|lines| - 1];
      Values(lines[..|lines| - 1], m) + (if last.ValueImport? && last.from == m then last.specs else [])
  }

  function Modules(lines: seq<Line>): set<Module> {
    if lines == [] then {}
    else
      var last := lines[|lines| - 1];
      Modules(lines[..|lines| - 1]) + (if last.Other? then {} else {last.from})
  }

  /** A name is imported from a module as a type. */
  ghost predicate ImportsType(lines: seq<Line>, m: Module, x: Ident) {
    x in Types(lines, m) || TypeOnly(x) in Values(lines, m)
  }

  /** A name is imported from a module as a value. */
  ghost predicate ImportsValue(lines: seq<Line>, m: Module, x: Ident) {
    Plain(x) in Values(lines, m)
  }

  /** The outline of lines: where modules are imported, between which other lines. */
  datatype Item = Import(m: Module) | Text(text: string)

  function ItemOf(line: Line): Item { if line.Other? then Text(line.text) else Import(line.from) }

  function Outline(lines: seq<Line>): seq<Item> {
    seq(|lines|, i requires 0 <= i < |lines| => ItemOf(lines[i]))
  }

  /** The outline without repeated imports of a module. */
  function FirstImports(lines: seq<Line>): seq<Item> {
    if lines == [] then []
    else
      var before, last := lines[..|lines| - 1], lines[|lines| - 1];
      if !last.Other? && last.from in Modules(before) then FirstImports(before)
      else FirstImports(before) + [ItemOf(last)]
  }

  // ----- the merge -----

  function AsTypeOnly(types: seq<Ident>): seq<Spec> {
    seq(|types|, i requires 0 <= i < |types| => TypeOnly(types[i]))
  }

  /** The import line for the names collected for a module. */
  function Combined(types: seq<Ident>, values: seq<Spec>, m: Module): Line {
    var ts, vs := Unique(types), Unique(values);
    if |vs| > 0 && |ts| > 0 then ValueImport(vs + AsTypeOnly(ts), m)
    else if |vs| > 0 then ValueImport(vs, m)
    else TypeImport(ts, m)
  }

  function SlotText(item: Item): string {
    match item
    case Import(m) => PlaceholderFor(m)
    case Text(text) => text
  }

  function Slots(items: seq<Item>): seq<string> {
    seq(|items|, i requires 0 <= i < |items| => SlotText(items[i]))
  }

  /** The line for a text of the list; none if it names a module that was not imported,
      where the program throws. */
  function Resolve(lines: seq<Line>, text: string): Option<Line> {
    if !HasPlaceholder(text) then Some(Other(text))
    else if ModuleIn(text) !in Modules(lines) then None
    else Some(Combined(Types(lines, ModuleIn(text)), Values(lines, ModuleIn(text)), ModuleIn(text)))
  }

  function ResolveAll(lines: seq<Line>, texts: seq<string>): Option<seq<Line>> {
    if texts == [] then Some([])
    else
      var before := ResolveAll(lines, texts[..|texts| - 1]);
      var last := Resolve(lines, texts[|texts| - 1]);
      if before.None? || last.None? then None else Some(before.value + [last.value])
  }

  function Merge(lines: seq<Line>): Option<seq<Line>> {
    ResolveAll(lines, Slots(FirstImports(lines)))
  }

  // ----- when the program throws -----

  lemma {:induction false} FirstImportsItems(lines: seq<Line>)
    ensures forall m :: Import(m) in FirstImports(lines) <==> m in Modules(lines)
    ensures forall t :: Text(t) in FirstImports(lines) <==> Other(t) in lines
  {
    if lines != [] {
      FirstImportsItems(lines[..|lines| - 1]);
      assert lines == lines[..|lines| - 1] + [lines[|lines| - 1]];
    }
  }

  lemma {:induction false} ResolveAllMeaning(lines: seq<Line>, texts: seq<string>)
    ensures var r := ResolveAll(lines, texts);
            && (r.Some? <==> forall i :: 0 <= i < |texts| ==> Resolve(lines, texts[i]).Some?)
            && (r.Some? ==> |r.value| == |texts| &&
                            forall i :: 0 <= i < |texts| ==> Resolve(lines, texts[i]) == Some(r.value[i]))
  {
    if texts != [] {
      ResolveAllMeaning(lines, texts[..|texts| - 1]);
    }
  }

  lemma ResolveItem(lines: seq<Line>, item: Item)
    requires item.Import? ==> item.m in Modules(lines)
    ensures Resolve(lines, SlotText(item)).None? <==>
            item.Text? && HasPlaceholder(item.text) && ModuleIn(item.text) !in Modules(lines)
    ensures Resolve(lines, SlotText(item)).Some? ==>
              Resolve(lines, SlotText(item)) == Some(LineFor(lines, Actual(item))) && ImportsOf(lines, Actual(item))
  {
    if item.Import? {
      PlaceholderNamesModule(item.m);
    }
  }

  /** What the program takes an item for: a text that starts with the placeholder counts as
      the import it imitates. */
  function Actual(item: Item): Item {
    if item.Text? && HasPlaceholder(item.text) then Import(ModuleIn(item.text)) else item
  }

  ghost predicate ImportsOf(lines: seq<Line>, item: Item) { item.Import? ==> item.m in Modules(lines) }

  /** The line that an item of the outline becomes. */
  function LineFor(lines: seq<Line>, item: Item): Line {
    match item
    case Import(m) => Combined(Types(lines, m), Values(lines, m), m)
    case Text(text) => Other(text)
  }

  /** The merge throws exactly when a line that is not an import starts with the placeholder
      and goes on with something that is not an imported module. */
  lemma ThrowsExactly(lines: seq<Line>)
    ensures Merge(lines).None? <==>
            exists t :: Other(t) in lines && HasPlaceholder(t) && ModuleIn(t) !in Modules(lines)
  {
    var items := FirstImports(lines);
    FirstImportsItems(lines);
    ResolveAllMeaning(lines, Slots(items));
    forall i | 0 <= i < |items|
      ensures Resolve(lines, Slots(items)[i]).None? <==>
              items[i].Text? && HasPlaceholder(items[i].text) && ModuleIn(items[i].text) !in Modules(lines)
    {
      assert items[i] in items;
      ResolveItem(lines, items[i]);
    }
    forall t | Other(t) in lines && HasPlaceholder(t) && ModuleIn(t) !in Modules(lines)
      ensures Merge(lines).None?
    {
      var i :| 0 <= i < |items| && items[i] == Text(t);
      assert Resolve(lines, Slots(items)[i]).None?;
    }
  }

  // ----- what the merge keeps -----

  /** No line that is not an import looks like a placeholder. */
  ghost predicate NoPlaceholder(lines: seq<Line>) { forall t :: Other(t) in lines ==> !HasPlaceholder(t) }

  /** Every merged line stands for an item of the outline. */
  lemma MergedLines(lines: seq<Line>)
    requires Merge(lines).Some?
    ensures var items := FirstImports(lines);
            && |Merge(lines).value| == |items|
            && forall i :: 0 <= i < |items| ==>
                 Merge(lines).value[i] == LineFor(lines, Actual(items[i])) && ImportsOf(lines, Actual(items[i]))
  {
    var items := FirstImports(lines);
    FirstImportsItems(lines);
    ResolveAllMeaning(lines, Slots(items));
    forall i | 0 <= i < |items|
      ensures Resolve(lines, Slots(items)[i]) == Some(LineFor(lines, Actual(items[i])))
      ensures ImportsOf(lines, Actual(items[i]))
    {
      assert items[i] in items;
      ResolveItem(lines, items[i]);
    }
  }

  lemma NothingIsImitated(lines: seq<Line>)
    requires NoPlaceholder(lines)
    ensures Merge(lines).Some?
    ensures forall i :: 0 <= i < |FirstImports(lines)| ==> Actual(FirstImports(lines)[i]) == FirstImports(lines)[i]
  {
    ThrowsExactly(lines);
    FirstImportsItems(lines);
    forall i | 0 <= i < |FirstImports(lines)|
      ensures Actual(FirstImports(lines)[i]) == FirstImports(lines)[i]
    {
      var item := FirstImports(lines)[i];
      assert item in FirstImports(lines);
      assert item.Text? ==> Other(item.text) in lines;
    }
  }

  lemma LineForItem(lines: seq<Line>, item: Item)
    ensures ItemOf(LineFor(lines, item)) == item
  {
  }

  ghost predicate DistinctImports(items: seq<Item>) {
    forall i, j :: 0 <= i < j < |items| && items[i].Import? ==> items[i] != items[j]
  }

  lemma {:induction false} FirstImportsDistinct(lines: seq<Line>)
    ensures DistinctImports(FirstImports(lines))
  {
    if lines != [] {
      FirstImportsDistinct(lines[..|lines| - 1]);
      FirstImportsItems(lines[..|lines| - 1]);
    }
  }

  /** The merged lines have one import per module, at the place of its first import, and all
      other lines in their order: their outline is that of the original without repeats. */
  lemma OutlineIsKept(lines: seq<Line>)
    requires NoPlaceholder(lines)
    ensures Merge(lines).Some? && Outline(Merge(lines).value) == FirstImports(lines)
    ensures DistinctImports(FirstImports(lines))
  {
    NothingIsImitated(lines);
    MergedLines(lines);
    FirstImportsDistinct(lines);
    var out, items := Merge(lines).value, FirstImports(lines);
    forall i | 0 <= i < |items|
      ensures Outline(out)[i] == items[i]
    {
      LineForItem(lines, items[i]);
    }
  }

  /** A line that imitates the placeholder of an imported module does not make the merge throw:
      it silently becomes another import of that module. */
  lemma ImitationBecomesImport(lines: seq<Line>, t: string) returns (i: nat, j: nat)
    requires Merge(lines).Some? && Other(t) in lines && HasPlaceholder(t)
    ensures var m, items, out := ModuleIn(t), FirstImports(lines), Merge(lines).value;
            && i < |items| && j < |items| && |out| == |items| && i != j
            && items[i] == Text(t) && items[j] == Import(m)
            && out[i] == out[j] == LineFor(lines, Import(m)) && IsImportOf(out[i], m)
  {
    var items := FirstImports(lines);
    MergedLines(lines);
    FirstImportsItems(lines);
    i := PlaceOf(items, Text(t));
    assert ImportsOf(lines, Actual(items[i]));
    j := PlaceOf(items, Import(ModuleIn(t)));
  }

  lemma PlaceOf(items: seq<Item>, item: Item) returns (i: nat)
    requires item in items
    ensures i < |items| && items[i] == item
  {
    i :| 0 <= i < |items| && items[i] == item;
  }

  /** The merge keeps every line that is not an import in its place, between one import per
      module, exactly when no such line starts with the placeholder. */
  lemma OutlineIsKeptExactly(lines: seq<Line>)
    ensures Merge(lines).Some? && Outline(Merge(lines).value) == FirstImports(lines) <==> NoPlaceholder(lines)
  {
    if NoPlaceholder(lines) {
      OutlineIsKept(lines);
    } else if Merge(lines).Some? {
      var t :| Other(t) in lines && HasPlaceholder(t);
      var i, j := ImitationBecomesImport(lines, t);
      assert Outline(Merge(lines).value)[i] != FirstImports(lines)[i];
    }
  }

  lemma {:induction false} OnlyImport(lines: seq<Line>, m: Module, k: int)
    requires forall j :: 0 <= j < |lines| && j != k ==> !IsImportOf(lines[j], m)
    ensures Types(lines, m) == if 0 <= k < |lines| && lines[k].TypeImport? && lines[k].from == m then lines[k].types else []
    ensures Values(lines, m) == if 0 <= k < |lines| && lines[k].ValueImport? && lines[k].from == m then lines[k].specs else []
    decreases |lines|
  {
    if lines != [] {
      var n := |lines| - 1;
      var before := lines[..n];
      assert forall j :: 0 <= j < n ==> before[j] == lines[j];
      OnlyImport(before, m, k);
      if k != n {
        assert !IsImportOf(lines[n], m);
      }
    }
  }

  function TypesOf(line: Line): seq<Ident> { if line.TypeImport? then line.types else [] }

  function SpecsOf(line: Line): seq<Spec> { if line.ValueImport? then line.specs else [] }

  lemma LineMakesItem(lines: seq<Line>, i: nat)
    requires NoPlaceholder(lines) && i < |FirstImports(lines)|
    ensures Merge(lines).Some? && |Merge(lines).value| == |FirstImports(lines)|
    ensures Merge(lines).value[i] == LineFor(lines, FirstImports(lines)[i])
    ensures forall m :: IsImportOf(Merge(lines).value[i], m) <==> FirstImports(lines)[i] == Import(m)
  {
    NothingIsImitated(lines);
    MergedLines(lines);
    LineForItem(lines, FirstImports(lines)[i]);
  }

  /** Merged lines list for a module exactly the names of its one import line. */
  lemma MergedNames(lines: seq<Line>, m: Module)
    requires NoPlaceholder(lines)
    ensures var c := Combined(Types(lines, m), Values(lines, m), m);
            && Merge(lines).Some?
            && Types(Merge(lines).value, m) == TypesOf(c) && Values(Merge(lines).value, m) == SpecsOf(c)
  {
    var items := FirstImports(lines);
    OutlineIsKept(lines);
    var out := Merge(lines).value;
    assert |out| == |items|;
    forall i | 0 <= i < |out| ensures IsImportOf(out[i], m) <==> items[i] == Import(m) {
      LineMakesItem(lines, i);
    }
    FirstImportsItems(lines);
    if m in Modules(lines) {
      var k := PlaceOf(items, Import(m));
      LineMakesItem(lines, k);
      OnlyImport(out, m, k);
    } else {
      OnlyImport(out, m, -1);
      NoNames(lines, m);
    }
  }

  lemma {:induction false} NoNames(lines: seq<Line>, m: Module)
    requires m !in Modules(lines)
    ensures Types(lines, m) == [] && Values(lines, m) == []
  {
    if lines != [] {
      NoNames(lines[..|lines| - 1], m);
    }
  }

  lemma CombinedMeaning(types: seq<Ident>, values: seq<Spec>, m: Module, x: Ident)
    ensures var c := Combined(types, values, m);
            && (x in TypesOf(c) || TypeOnly(x) in SpecsOf(c) <==> x in types || TypeOnly(x) in values)
            && (Plain(x) in SpecsOf(c) <==> Plain(x) in values)
  {
    var ts, vs := Unique(types), Unique(values);
    assert forall i :: 0 <= i < |ts| ==> AsTypeOnly(ts)[i] == TypeOnly(ts[i]);
    if x in ts {
      var i :| 0 <= i < |ts| && ts[i] == x;
      assert AsTypeOnly(ts)[i] == TypeOnly(x);
    }
  }

  ghost predicate ListedAsType(lines: seq<Line>, m: Module, x: Ident) {
    exists i :: 0 <= i < |lines| && IsImportOf(lines[i], m) && x in TypesOf(lines[i])
  }

  ghost predicate ListedAsSpec(lines: seq<Line>, m: Module, x: Spec) {
    exists i :: 0 <= i < |lines| && IsImportOf(lines[i], m) && x in SpecsOf(lines[i])
  }

  /** The names of a module are those of its import lines. */
  lemma {:induction false} NamesAreListed(lines: seq<Line>, m: Module)
    ensures forall x :: x in Types(lines, m) <==> ListedAsType(lines, m, x)
    ensures forall x :: x in Values(lines, m) <==> ListedAsSpec(lines, m, x)
  {
    if lines != [] {
      var n := |lines| - 1;
      NamesAreListed(lines[..n], m);
      forall x ensures ListedAsType(lines, m, x) <==>
                       ListedAsType(lines[..n], m, x) || (IsImportOf(lines[n], m) && x in TypesOf(lines[n])) {
        if i :| 0 <= i < n && IsImportOf(lines[..n][i], m) && x in TypesOf(lines[..n][i]) {
          assert lines[i] == lines[..n][i];
        }
        if i :| 0 <= i < n && IsImportOf(lines[i], m) && x in TypesOf(lines[i]) {
          assert lines[..n][i] == lines[i];
        }
      }
      forall x ensures ListedAsSpec(lines, m, x) <==>
                       ListedAsSpec(lines[..n], m, x) || (IsImportOf(lines[n], m) && x in SpecsOf(lines[n])) {
        if i :| 0 <= i < n && IsImportOf(lines[..n][i], m) && x in SpecsOf(lines[..n][i]) {
          assert lines[i] == lines[..n][i];
        }
        if i :| 0 <= i < n && IsImportOf(lines[i], m) && x in SpecsOf(lines[i]) {
          assert lines[..n][i] == lines[i];
        }
      }
    }
  }

  /** All import lines of a module are alike after the merge, and there is one if the module
      was imported. */
  lemma MergedImports(lines: seq<Line>, m: Module)
    requires Merge(lines).Some?
    ensures var out, c := Merge(lines).value, Combined(Types(lines, m), Values(lines, m), m);
            && (forall i :: 0 <= i < |out| && IsImportOf(out[i], m) ==> out[i] == c)
            && ((exists i :: 0 <= i < |out| && IsImportOf(out[i], m)) <==> m in Modules(lines))
  {
    var out, items := Merge(lines).value, FirstImports(lines);
    MergedLines(lines);
    FirstImportsItems(lines);
    if m in Modules(lines) {
      var i := PlaceOf(items, Import(m));
      assert IsImportOf(out[i], m);
    }
    forall i | 0 <= i < |out| && IsImportOf(out[i], m)
      ensures m in Modules(lines) && Actual(items[i]) == Import(m)
    {
      LineForItem(lines, Actual(items[i]));
      assert ImportsOf(lines, Actual(items[i]));
    }
  }

  /** The import line of a module after the merge: an `import type` exactly if no value import
      names anything from it, with the names in the order of their first occurrence, those of
      value imports first. */
  lemma MergedLineIs(lines: seq<Line>, m: Module, i: nat)
    requires Merge(lines).Some? && i < |Merge(lines).value| && IsImportOf(Merge(lines).value[i], m)
    ensures var line, ts, vs := Merge(lines).value[i], Unique(Types(lines, m)), Unique(Values(lines, m));
            && (line.TypeImport? <==> Values(lines, m) == [])
            && (line.TypeImport? ==> line.types == ts)
            && (line.ValueImport? ==>
                  && |line.specs| == |vs| + |ts| && line.specs[..|vs|] == vs
                  && forall k :: 0 <= k < |ts| ==> line.specs[|vs| + k] == TypeOnly(ts[k]))
  {
    MergedImports(lines, m);
    CombinedIs(Types(lines, m), Values(lines, m), m);
    JoinedSpecs(Unique(Types(lines, m)), Unique(Values(lines, m)));
  }

  lemma CombinedIs(types: seq<Ident>, values: seq<Spec>, m: Module)
    ensures var line, ts, vs := Combined(types, values, m), Unique(types), Unique(values);
            && (line.TypeImport? <==> values == [])
            && (line.TypeImport? ==> line.types == ts)
            && (line.ValueImport? ==> line.specs == vs + AsTypeOnly(ts))
  {
    UniqueEmpty(types);
    UniqueEmpty(values);
    JoinedSpecs(Unique(types), Unique(values));
  }

  lemma UniqueEmpty<T(!new)>(s: seq<T>)
    ensures Unique(s) == [] <==> s == []
  {
    if s != [] {
      assert s[0] in Unique(s);
    }
  }

  lemma JoinedSpecs(ts: seq<Ident>, vs: seq<Spec>)
    ensures var w := vs + AsTypeOnly(ts);
            && |w| == |vs| + |ts| && w[..|vs|] == vs
            && (forall k :: 0 <= k < |ts| ==> w[|vs| + k] == TypeOnly(ts[k]))
            && (ts == [] ==> w == vs)
  {
  }

  /** Whenever the merge does not throw, the merged lines import for every module the same
      names as types and the same names as values. */
  lemma MeaningIsKept(lines: seq<Line>, m: Module, x: Ident)
    requires Merge(lines).Some?
    ensures ImportsType(Merge(lines).value, m, x) <==> ImportsType(lines, m, x)
    ensures ImportsValue(Merge(lines).value, m, x) <==> ImportsValue(lines, m, x)
  {
    CombinedMeaning(Types(lines, m), Values(lines, m), m, x);
    ListedInMerged(lines, m, x, TypeOnly(x));
    ListedInMerged(lines, m, x, Plain(x));
    NameIsListed(Merge(lines).value, m, x, TypeOnly(x));
    NameIsListed(Merge(lines).value, m, x, Plain(x));
    if m !in Modules(lines) {
      NoNames(lines, m);
    }
  }

  lemma NameIsListed(lines: seq<Line>, m: Module, x: Ident, y: Spec)
    ensures x in Types(lines, m) <==> ListedAsType(lines, m, x)
    ensures y in Values(lines, m) <==> ListedAsSpec(lines, m, y)
  {
    NamesAreListed(lines, m);
  }

  lemma ListedInMerged(lines: seq<Line>, m: Module, x: Ident, y: Spec)
    requires Merge(lines).Some?
    ensures var out, c := Merge(lines).value, Combined(Types(lines, m), Values(lines, m), m);
            && (ListedAsType(out, m, x) <==> m in Modules(lines) && x in TypesOf(c))
            && (ListedAsSpec(out, m, y) <==> m in Modules(lines) && y in SpecsOf(c))
  {
    MergedImports(lines, m);
    var out := Merge(lines).value;
    if m in Modules(lines) {
      var i :| 0 <= i < |out| && IsImportOf(out[i], m);
    }
  }

  // ----- merging again -----

  /** A name is listed both by an `import type` and with the `type` modifier. */
  ghost predicate Overlap(types: seq<Ident>, values: seq<Spec>) {
    exists x :: x in types && TypeOnly(x) in values
  }

  lemma JoinNoDup(ts: seq<Ident>, vs: seq<Spec>)
    requires NoDup(ts) && NoDup(vs)
    ensures NoDup(vs + AsTypeOnly(ts)) <==> !Overlap(ts, vs)
  {
    var w := vs + AsTypeOnly(ts);
    assert forall i :: 0 <= i < |ts| ==> w[|vs| + i] == TypeOnly(ts[i]);
    if Overlap(ts, vs) {
      var x :| x in ts && TypeOnly(x) in vs;
      var i :| 0 <= i < |ts| && ts[i] == x;
      var j :| 0 <= j < |vs| && vs[j] == TypeOnly(x);
      assert w[j] == w[|vs| + i];
    }
  }

  lemma CombinedTwice(types: seq<Ident>, values: seq<Spec>, m: Module)
    ensures var c := Combined(types, values, m);
            Combined(TypesOf(c), SpecsOf(c), m) == c <==> !Overlap(types, values)
  {
    var ts, vs := Unique(types), Unique(values);
    assert Overlap(types, values) <==> Overlap(ts, vs);
    UniqueFixes(ts);
    UniqueFixes(vs);
    UniqueFixes(vs + AsTypeOnly(ts));
    JoinNoDup(ts, vs);
  }

  lemma {:induction false} DistinctOutline(lines: seq<Line>)
    requires DistinctImports(Outline(lines))
    ensures FirstImports(lines) == Outline(lines)
  {
    if lines != [] {
      var n := |lines| - 1;
      var before := lines[..n];
      assert Outline(before) == Outline(lines)[..n];
      assert Outline(lines) == Outline(before) + [ItemOf(lines[n])];
      assert DistinctImports(Outline(lines)[..n]);
      DistinctOutline(before);
      FirstImportsItems(before);
      assert Outline(lines)[n].Import? ==> Outline(lines)[n] !in Outline(lines)[..n];
    }
  }

  lemma MergedAgain(lines: seq<Line>)
    requires NoPlaceholder(lines)
    ensures Merge(lines).Some? && NoPlaceholder(Merge(lines).value)
    ensures FirstImports(Merge(lines).value) == FirstImports(lines)
  {
    NothingIsImitated(lines);
    OutlineIsKept(lines);
    PlaceholdersAreGone(lines);
    DistinctOutline(Merge(lines).value);
  }

  lemma PlaceholdersAreGone(lines: seq<Line>)
    requires Merge(lines).Some?
    ensures NoPlaceholder(Merge(lines).value)
  {
    MergedLines(lines);
    var out, items := Merge(lines).value, FirstImports(lines);
    forall t | Other(t) in out
      ensures !HasPlaceholder(t)
    {
      var i :| 0 <= i < |out| && out[i] == Other(t);
      LineForItem(lines, Actual(items[i]));
    }
  }

  lemma LineAgain(lines: seq<Line>, m: Module)
    requires NoPlaceholder(lines)
    ensures Merge(lines).Some?
    ensures LineFor(Merge(lines).value, Import(m)) == LineFor(lines, Import(m)) <==>
            !Overlap(Types(lines, m), Values(lines, m))
  {
    MergedNames(lines, m);
    CombinedTwice(Types(lines, m), Values(lines, m), m);
  }

  lemma StableUnlessOverlap(lines: seq<Line>)
    requires NoPlaceholder(lines)
    ensures Merge(lines).Some?
    ensures Merge(Merge(lines).value) == Merge(lines) <==> forall m :: !Overlap(Types(lines, m), Values(lines, m))
  {
    NothingIsImitated(lines);
    MergedLines(lines);
    MergedAgain(lines);
    var out, items := Merge(lines).value, FirstImports(lines);
    NothingIsImitated(out);
    MergedLines(out);
    var again := Merge(out).value;
    if again == out {
      forall m ensures !Overlap(Types(lines, m), Values(lines, m)) {
        if m in Modules(lines) {
          FirstImportsItems(lines);
          var i :| 0 <= i < |items| && items[i] == Import(m);
          StableItem(lines, i);
        } else {
          NoNames(lines, m);
        }
      }
    } else {
      var i :| 0 <= i < |items| && again[i] != out[i];
      StableItem(lines, i);
    }
  }

  /** An import that a placeholder line became is merged away the second time. */
  lemma ImitationIsMergedAway(lines: seq<Line>, t: string)
    requires Merge(lines).Some? && Other(t) in lines && HasPlaceholder(t)
    ensures Merge(Merge(lines).value) != Merge(lines)
  {
    var out := Merge(lines).value;
    var i, j := ImitationBecomesImport(lines, t);
    PlaceholdersAreGone(lines);
    OutlineIsKept(out);
    assert Outline(out)[i] == Outline(out)[j] == Import(ModuleIn(t));
  }

  /** Merging the merged lines again changes nothing exactly when no line imitates a
      placeholder and no module has a name that is listed both by an `import type` and with
      the `type` modifier. */
  lemma IdempotentExactly(lines: seq<Line>)
    requires Merge(lines).Some?
    ensures Merge(Merge(lines).value) == Merge(lines) <==>
            NoPlaceholder(lines) && forall m :: !Overlap(Types(lines, m), Values(lines, m))
  {
    if NoPlaceholder(lines) {
      StableUnlessOverlap(lines);
    } else {
      var t :| Other(t) in lines && HasPlaceholder(t);
      ImitationIsMergedAway(lines, t);
    }
  }

  lemma StableItem(lines: seq<Line>, i: nat)
    requires NoPlaceholder(lines) && i < |FirstImports(lines)|
    ensures Merge(lines).Some? && Merge(Merge(lines).value).Some?
    ensures var item, out := FirstImports(lines)[i], Merge(lines).value;
            && i < |out| && i < |Merge(out).value|
            && (Merge(out).value[i] == out[i] <==> item.Import? ==> !Overlap(Types(lines, item.m), Values(lines, item.m)))
  {
    NothingIsImitated(lines);
    MergedLines(lines);
    MergedAgain(lines);
    NothingIsImitated(Merge(lines).value);
    MergedLines(Merge(lines).value);
    if FirstImports(lines)[i].Import? {
      LineAgain(lines, FirstImports(lines)[i].m);
    }
  }

  // ----- the program -----

  datatype Entry = Entry(typeNames: seq<Ident>, valueNames: seq<Spec>)

  ghost predicate Collected(imports: map<Module, Entry>, lines: seq<Line>) {
    && imports.Keys == Modules(lines)
    && forall m :: m in imports ==> imports[m] == Entry(Types(lines, m), Values(lines, m))
  }

  lemma NamesAppend(before: seq<Line>, line: Line, m: Module)
    ensures Types(before + [line], m) == Types(before, m) + (if IsImportOf(line, m) then TypesOf(line) else [])
    ensures Values(before + [line], m) == Values(before, m) + (if IsImportOf(line, m) then SpecsOf(line) else [])
    ensures Modules(before + [line]) == Modules(before) + (if line.Other? then {} else {line.from})
  {
    assert (before + [line])[..|before|] == before;
  }

  lemma SlotsAppend(before: seq<Line>, line: Line)
    ensures Slots(FirstImports(before + [line])) ==
            Slots(FirstImports(before)) +
            (if line.Other? then [line.text] else if line.from in Modules(before) then [] else [PlaceholderFor(line.from)])
  {
    FirstImportsNext(before, line);
    if line.Other? || line.from !in Modules(before) {
      SlotsNext(FirstImports(before), ItemOf(line));
    }
  }

  lemma FirstImportsNext(before: seq<Line>, line: Line)
    ensures FirstImports(before + [line]) ==
            FirstImports(before) + (if !line.Other? && line.from in Modules(before) then [] else [ItemOf(line)])
  {
    assert (before + [line])[..|before|] == before;
  }

  lemma SlotsNext(items: seq<Item>, item: Item)
    ensures Slots(items + [item]) == Slots(items) + [SlotText(item)]
  {
  }

  /** The names collected so far, after one more import line. */
  method Collect(imports: map<Module, Entry>, line: Line, ghost before: seq<Line>) returns (r: map<Module, Entry>)
    requires !line.Other? && Collected(imports, before)
    ensures Collected(r, before + [line])
  {
    var entry := if line.from in imports then imports[line.from] else Entry([], []);
    if line.TypeImport? {
      entry := entry.(typeNames := entry.typeNames + line.types);
    } else {
      entry := entry.(valueNames := entry.valueNames + line.specs);
    }
    r := imports[line.from := entry];
    if line.from !in imports {
      NoNames(before, line.from);
    }
    NamesAppend(before, line, line.from);
    forall m | m in r
      ensures r[m] == Entry(Types(before + [line], m), Values(before + [line], m))
    {
      NamesAppend(before, line, m);
    }
  }

  lemma OtherCollected(imports: map<Module, Entry>, before: seq<Line>, line: Line)
    requires line.Other? && Collected(imports, before)
    ensures Collected(imports, before + [line]) && Modules(before + [line]) == Modules(before)
  {
    assert (before + [line])[..|before|] == before;
    forall m | m in imports
      ensures imports[m] == Entry(Types(before + [line], m), Values(before + [line], m))
    {
      NamesAppend(before, line, m);
    }
  }

  /** Replaces every placeholder by the import line of its module. */
  method ReplacePlaceholders(imports: map<Module, Entry>, texts: seq<string>, ghost lines: seq<Line>)
    returns (merged: Option<seq<Line>>)
    requires Collected(imports, lines)
    ensures merged == ResolveAll(lines, texts)
  {
    var out: seq<Line> := [];
    for i := 0 to |texts|
      invariant ResolveAll(lines, texts[..i]) == Some(out)
    {
      var text := texts[i];
      assert texts[..i + 1][..i] == texts[..i];
      if HasPlaceholder(text) {
        var m := ModuleIn(text);
        if m !in imports {
          ResolveAllMeaning(lines, texts);
          return None;
        }
        out := out + [Combined(imports[m].typeNames, imports[m].valueNames, m)];
      } else {
        out := out + [Other(text)];
      }
    }
    assert texts[..|texts|] == texts;
    merged := Some(out);
  }

  /** Collects the imports and leaves a placeholder at the first import of each module, then
      replaces the placeholders.  The result is none where the program throws. */
  method MergeDuplicateImports(lines: seq<Line>) returns (merged: Option<seq<Line>>)
    ensures merged == Merge(lines)
  {
    var importsByModule: map<Module, Entry> := map[];
    var otherLines: seq<string> := [];
    var seenModules: set<Module> := {};
    for i := 0 to |lines|
      invariant Collected(importsByModule, lines[..i]) && seenModules == Modules(lines[..i])
      invariant otherLines == Slots(FirstImports(lines[..i]))
    {
      var line := lines[i];
      assert lines[..i + 1] == lines[..i] + [line];
      SlotsAppend(lines[..i], line);
      if line.Other? {
        OtherCollected(importsByModule, lines[..i], line);
        otherLines := otherLines + [line.text];
      } else {
        NamesAppend(lines[..i], line, line.from);
        importsByModule := Collect(importsByModule, line, lines[..i]);
        if line.from !in seenModules {
          seenModules := seenModules + {line.from};
          otherLines := otherLines + [PLACEHOLDER + line.from.path];
        }
      }
    }
    assert lines[..|lines|] == lines;
    merged := ReplacePlaceholders(importsByModule, otherLines, lines);
  }
}

/**
  The import-matching loop of the lookup. The records are what the import parser produces
  for the logic block; the loop keeps the module specifier of every matching package import,
  so the last one in file order wins.
 */
module Imports {
  import opened Wrappers
  import opened Selection

  /** One entry of `{ a as b }`: the exported name and the local binding. */
  datatype NamedImport = NamedImport(specifier: string, binding: string)

  /** The bindings of an import declaration; absent for dynamic imports. */
  datatype ImportClause = ImportClause(defaultName: Option<string>, named: seq<NamedImport>)

  /** The parser's classification of a module specifier. */
  datatype SpecifierKind = Package | Relative | Absolute | Builtin | Unknown | Invalid

  /** `value` is the specifier's string value when the parser could evaluate it; `code` its source text. */
  datatype ModuleSpecifier = ModuleSpecifier(kind: SpecifierKind, value: Option<string>, code: string)

  datatype ImportRecord = ImportRecord(clause: Option<ImportClause>, specifier: ModuleSpecifier)

  /** Every name an import clause introduces or mentions: default, exported and local names. */
  function BoundNames(c: ImportClause): set<string> {
    (if c.defaultName.Some? then {c.defaultName.value} else {}) +
    (set n | n in c.named :: n.specifier) +
    (set n | n in c.named :: n.binding)
  }

  /**
    `hasSameName`: the declaration binds `word` by its default name, or by an exported or
    local name; that is, `word` is one of the clause's names, compared as written.
   */
  predicate BindsName(r: ImportRecord, word: string)
    ensures BindsName(r, word) <==> r.clause.Some? && word in BoundNames(r.clause.value)
  {
    r.clause.Some? &&
    (r.clause.value.defaultName == Some(word) ||
     exists n :: n in r.clause.value.named && (n.specifier == word || n.binding == word))
  }

  /**
    A record the loop takes its target from: a binding match with a package specifier. A
    declaration without an import clause, such as a dynamic import, never selects.
   */
  predicate Selects(r: ImportRecord, word: string) {
    BindsName(r, word) && r.specifier.kind == Package
  }

  /** `value || code`: the string value unless it is missing or empty. */
  function SpecifierText(m: ModuleSpecifier): (t: string)
    ensures m.value.Some? && m.value.value != [] ==> t == m.value.value
    ensures m.value.None? || m.value.value == [] ==> t == m.code
    ensures m.code != [] ==> t != []
  {
    match m.value
    case Some(v) => if v != [] then v else m.code
    case None => m.code
  }

  /**
    The target the loop leaves behind: the specifier text of the last selecting record, or
    "" when no record selects.
   */
  function TargetOf(imports: seq<ImportRecord>, word: string): (t: string)
    ensures t != "" ==>
      exists i :: 0 <= i < |imports| && Selects(imports[i], word) &&
        t == SpecifierText(imports[i].specifier) &&
        forall j :: i < j < |imports| ==> !Selects(imports[j], word)
    ensures forall i ::
      0 <= i < |imports| && Selects(imports[i], word) &&
      (forall j :: i < j < |imports| ==> !Selects(imports[j], word)) ==>
        t == SpecifierText(imports[i].specifier)
    ensures (forall r :: r in imports ==> !Selects(r, word)) ==> t == ""
  {
    match LastWhere(imports, r => Selects(r, word))
    case Some(i) => SpecifierText(imports[i].specifier)
    case None => ""
  }

  /** The `for ... of` loop over the parsed imports. */
  method FindTarget(imports: seq<ImportRecord>, word: string) returns (target: string)
    ensures target == TargetOf(imports, word)
  {
    target := "";
    var k := 0;
    while k < |imports|
      invariant 0 <= k <= |imports|
      invariant target == TargetOf(imports[..k], word)
    {
      var item := imports[k];
      assert imports[..k + 1] == imports[..k] + [item];
      LastWhereAppend(imports[..k], [item], r => Selects(r, word));
      if BindsName(item, word) {
        if item.specifier.kind == Package {
          target := SpecifierText(item.specifier);
        }
      }
      k := k + 1;
    }
    assert imports[..k] == imports;
  }

  /** The last matching package import decides the target, whatever came before it. */
  lemma LastMatchWins(before: seq<ImportRecord>, r: ImportRecord, after: seq<ImportRecord>, word: string)
    requires Selects(r, word)
    requires forall x :: x in after ==> !Selects(x, word)
    ensures TargetOf(before + [r] + after, word) == SpecifierText(r.specifier)
  {
    var s := before + [r] + after;
    var p := (x: ImportRecord) => Selects(x, word);
    forall j | |before| < j < |s| ensures !p(s[j]) {
      assert s[j] == after[j - |before| - 1];
    }
    assert s[|before|] == r;
    LastWhereUnique(s, p, Some(|before|));
  }

  /** A record whose specifier is not a package never changes the target, wherever it stands. */
  lemma NonPackageIgnored(before: seq<ImportRecord>, r: ImportRecord, after: seq<ImportRecord>, word: string)
    requires r.specifier.kind != Package
    ensures TargetOf(before + [r] + after, word) == TargetOf(before + after, word)
  {
    LastWhereSkip(before, r, after, x => Selects(x, word));
  }

  /** A matching import whose specifier is relative, absolute or otherwise not a package is ignored. */
  lemma NonPackageMatchIgnored(imports: seq<ImportRecord>, word: string)
    requires forall r :: r in imports && BindsName(r, word) ==> r.specifier.kind != Package
    ensures TargetOf(imports, word) == ""
  {
  }
}

/**
 * The option registry of `Homebrew::Command` (Library/Homebrew/command.rb):
 * the flat, ordered list of option records in `@valid_options`, the lookup
 * `@valid_options.find { |x| x[:option] == name }`, and the declaration tree
 * that stands for nested `option "word", desc: "..." do ... end` blocks.
 */
module Registry {
  import opened Text

  /**
   * One entry of `@valid_options`: `{ option: "--word", desc: d, child_options: [...] }`.
   * An empty `childOptions` stands for a record without the `child_options`
   * key: the source creates that key with its first child, so it is never empty.
   */
  datatype OptionRecord = OptionRecord(option: string, desc: string, childOptions: seq<string>)

  /** One `option word, desc: d` call, with the `option` calls of its block in order. */
  datatype OptSpec = OptSpec(word: string, desc: string, children: seq<OptSpec>)

  /** The name an `option` call registers: `"--#{args[0]}"`. */
  function Name(s: OptSpec): string {
    "--" + s.word
  }

  /** The names of a list of declarations, in order. */
  function Heads(ss: seq<OptSpec>): (r: seq<string>)
    ensures |r| == |ss| && forall k :: 0 <= k < |ss| ==> r[k] == Name(ss[k])
  {
    seq(|ss|, k requires 0 <= k < |ss| => Name(ss[k]))
  }

  /** `@valid_options.map { |option_hash| option_hash[:option] }`. */
  function Names(recs: seq<OptionRecord>): (r: seq<string>)
    ensures |r| == |recs| && forall k :: 0 <= k < |recs| ==> r[k] == recs[k].option
  {
    seq(|recs|, k requires 0 <= k < |recs| => recs[k].option)
  }

  lemma NamesAppend(a: seq<OptionRecord>, b: seq<OptionRecord>)
    ensures Names(a + b) == Names(a) + Names(b)
  {
  }

  // ---------------------------------------------------------------------
  // The records a declaration produces

  /** The record an `option` call appends, with the names its block adds as children. */
  function RecordOf(s: OptSpec): OptionRecord {
    OptionRecord(Name(s), s.desc, Heads(s.children))
  }

  /** The records a declaration leaves in `@valid_options`: its own, then its block's, in order. */
  function Flat(s: OptSpec): seq<OptionRecord> {
    [RecordOf(s)] + FlatAll(s.children)
  }

  function FlatAll(ss: seq<OptSpec>): seq<OptionRecord> {
    if ss == [] then [] else Flat(ss[0]) + FlatAll(ss[1..])
  }

  /** Every name a declaration introduces, in pre-order. */
  function TreeNames(s: OptSpec): seq<string> {
    [Name(s)] + TreeNamesAll(s.children)
  }

  function TreeNamesAll(ss: seq<OptSpec>): seq<string> {
    if ss == [] then [] else TreeNames(ss[0]) + TreeNamesAll(ss[1..])
  }

  lemma FlatAllSnoc(ss: seq<OptSpec>, s: OptSpec)
    ensures FlatAll(ss + [s]) == FlatAll(ss) + Flat(s)
    ensures TreeNamesAll(ss + [s]) == TreeNamesAll(ss) + TreeNames(s)
  {
    if ss == [] {
      assert [] + [s] == [s];
    } else {
      assert (ss + [s])[1..] == ss[1..] + [s];
      FlatAllSnoc(ss[1..], s);
    }
  }

  /** The registry's names are exactly the declared names, in declaration order. */
  lemma {:induction false} NamesOfFlat(s: OptSpec)
    ensures Names(Flat(s)) == TreeNames(s)
  {
    NamesOfFlatAll(s.children);
    NamesAppend([RecordOf(s)], FlatAll(s.children));
  }

  lemma {:induction false} NamesOfFlatAll(ss: seq<OptSpec>)
    ensures Names(FlatAll(ss)) == TreeNamesAll(ss)
  {
    if ss != [] {
      NamesOfFlat(ss[0]);
      NamesOfFlatAll(ss[1..]);
      NamesAppend(Flat(ss[0]), FlatAll(ss[1..]));
    }
  }

  /** A declaration in a list leaves its records among the list's records. */
  lemma {:induction false} FlatAllHas(ss: seq<OptSpec>, k: nat, r: OptionRecord)
    requires k < |ss| && r in Flat(ss[k])
    ensures r in FlatAll(ss)
  {
    if k > 0 {
      FlatAllHas(ss[1..], k - 1, r);
    }
  }

  // ---------------------------------------------------------------------
  // Lookup by name

  /** The position `@valid_options.find { |x| x[:option] == name }` picks: the first record so named. */
  function IndexOf(recs: seq<OptionRecord>, name: string): (i: nat)
    requires name in Names(recs)
    ensures i < |recs| && recs[i].option == name
    ensures forall k :: 0 <= k < i ==> recs[k].option != name
  {
    FirstIndex(Names(recs), name)
  }

  /** With distinct names, the record found by name is the one that carries it. */
  lemma IndexOfDistinct(recs: seq<OptionRecord>, j: nat)
    requires Distinct(Names(recs)) && j < |recs|
    ensures recs[j].option in Names(recs) && IndexOf(recs, recs[j].option) == j
  {
    var ns := Names(recs);
    assert ns[j] == recs[j].option;
  }

  /**
   * Every child reference names a record, and the first record of that name
   * comes later in the list. This is what makes the recursive renderers of
   * the source terminate.
   */
  ghost predicate ChildrenLater(recs: seq<OptionRecord>) {
    forall i, k :: 0 <= i < |recs| && 0 <= k < |recs[i].childOptions| ==>
      recs[i].childOptions[k] in Names(recs) && IndexOf(recs, recs[i].childOptions[k]) > i
  }

  /** Some record after position `i` is named `name`. */
  ghost predicate NamedAfter(recs: seq<OptionRecord>, i: int, name: string) {
    exists j :: 0 <= i < j < |recs| && recs[j].option == name
  }

  /** Every child reference is the name of some later record. */
  ghost predicate ChildrenAhead(recs: seq<OptionRecord>) {
    forall i, k :: 0 <= i < |recs| && 0 <= k < |recs[i].childOptions| ==>
      NamedAfter(recs, i, recs[i].childOptions[k])
  }

  lemma AheadAppend(a: seq<OptionRecord>, b: seq<OptionRecord>)
    requires ChildrenAhead(a) && ChildrenAhead(b)
    ensures ChildrenAhead(a + b)
  {
    var ab := a + b;
    forall i, k | 0 <= i < |ab| && 0 <= k < |ab[i].childOptions|
      ensures NamedAfter(ab, i, ab[i].childOptions[k])
    {
      if i < |a| {
        assert ab[i] == a[i];
        assert NamedAfter(a, i, a[i].childOptions[k]);
        var j :| i < j < |a| && a[j].option == a[i].childOptions[k];
        assert ab[j] == a[j];
        assert i < j < |ab| && ab[j].option == ab[i].childOptions[k];
      } else {
        var i' := i - |a|;
        assert ab[i] == b[i'];
        assert NamedAfter(b, i', b[i'].childOptions[k]);
        var j :| i' < j < |b| && b[j].option == b[i'].childOptions[k];
        assert ab[|a| + j] == b[j];
        assert i < |a| + j < |ab| && ab[|a| + j].option == ab[i].childOptions[k];
      }
    }
  }

  lemma {:induction false} FlatAhead(s: OptSpec)
    requires Distinct(TreeNames(s))
    ensures ChildrenAhead(Flat(s))
  {
    var rest := FlatAll(s.children);
    DistinctTreeNames(s);
    FlatAllAhead(s.children);
    var all := Flat(s);
    forall i, k | 0 <= i < |all| && 0 <= k < |all[i].childOptions|
      ensures NamedAfter(all, i, all[i].childOptions[k])
    {
      if i == 0 {
        assert all[0] == RecordOf(s);
        var c := s.children[k];
        var r := RecordOf(c);
        assert r in Flat(c);
        FlatAllHas(s.children, k, r);
        var j :| 0 <= j < |rest| && rest[j] == r;
        assert all[j + 1] == r;
      } else {
        assert all[i] == rest[i - 1];
        assert NamedAfter(rest, i - 1, rest[i - 1].childOptions[k]);
        var j :| i - 1 < j < |rest| && rest[j].option == rest[i - 1].childOptions[k];
        assert all[j + 1] == rest[j];
      }
    }
  }

  lemma {:induction false} FlatAllAhead(ss: seq<OptSpec>)
    requires Distinct(TreeNamesAll(ss))
    ensures ChildrenAhead(FlatAll(ss))
  {
    if ss != [] {
      DistinctSplit(TreeNames(ss[0]), TreeNamesAll(ss[1..]));
      FlatAhead(ss[0]);
      FlatAllAhead(ss[1..]);
      AheadAppend(Flat(ss[0]), FlatAll(ss[1..]));
    }
  }

  lemma DistinctSplit(a: seq<string>, b: seq<string>)
    requires Distinct(a + b)
    ensures Distinct(a) && Distinct(b)
    ensures forall x :: x in a ==> x !in b
  {
    forall i, j | 0 <= i < j < |a| ensures a[i] != a[j] {
      assert (a + b)[i] == a[i] && (a + b)[j] == a[j];
    }
    forall i, j | 0 <= i < j < |b| ensures b[i] != b[j] {
      assert (a + b)[|a| + i] == b[i] && (a + b)[|a| + j] == b[j];
    }
    forall x | x in a ensures x !in b {
      var i :| 0 <= i < |a| && a[i] == x;
      forall j | 0 <= j < |b| ensures b[j] != x {
        assert (a + b)[i] == a[i] && (a + b)[|a| + j] == b[j];
      }
    }
  }

  lemma {:induction false} DistinctTreeNames(s: OptSpec)
    requires Distinct(TreeNames(s))
    ensures Distinct(TreeNamesAll(s.children))
    ensures Name(s) !in TreeNamesAll(s.children)
  {
    DistinctSplit([Name(s)], TreeNamesAll(s.children));
  }

  lemma AheadLater(recs: seq<OptionRecord>)
    requires Distinct(Names(recs)) && ChildrenAhead(recs)
    ensures ChildrenLater(recs)
  {
    forall i, k | 0 <= i < |recs| && 0 <= k < |recs[i].childOptions|
      ensures recs[i].childOptions[k] in Names(recs) && IndexOf(recs, recs[i].childOptions[k]) > i
    {
      assert NamedAfter(recs, i, recs[i].childOptions[k]);
      var j :| i < j < |recs| && recs[j].option == recs[i].childOptions[k];
      IndexOfDistinct(recs, j);
    }
  }

  /**
   * The registry that a list of declarations with distinct names produces has
   * distinct names, one record per declared name, and every child reference
   * resolving to a later record.
   */
  lemma BuiltRegistry(ss: seq<OptSpec>)
    requires Distinct(TreeNamesAll(ss))
    ensures Names(FlatAll(ss)) == TreeNamesAll(ss)
    ensures |FlatAll(ss)| == |TreeNamesAll(ss)|
    ensures Distinct(Names(FlatAll(ss)))
    ensures ChildrenLater(FlatAll(ss))
    ensures forall k :: 0 <= k < |ss| ==> Name(ss[k]) in Names(FlatAll(ss))
  {
    NamesOfFlatAll(ss);
    FlatAllAhead(ss);
    AheadLater(FlatAll(ss));
    forall k | 0 <= k < |ss| ensures Name(ss[k]) in Names(FlatAll(ss)) {
      assert RecordOf(ss[k]) in Flat(ss[k]);
      FlatAllHas(ss, k, RecordOf(ss[k]));
    }
  }

  // ---------------------------------------------------------------------
  // The tree the registry encodes

  /** The names below `name` in the registry, `name` first, each before its descendants. */
  function PreOrder(recs: seq<OptionRecord>, name: string): (r: seq<string>)
    requires ChildrenLater(recs) && name in Names(recs)
    ensures r != [] && r[0] == name
    decreases |recs| - IndexOf(recs, name), 1, 0
  {
    var i := IndexOf(recs, name);
    [name] + PreOrderAll(recs, recs[i].childOptions, i)
  }

  function PreOrderAll(recs: seq<OptionRecord>, cs: seq<string>, i: int): seq<string>
    requires ChildrenLater(recs) && -1 <= i < |recs|
    requires forall k :: 0 <= k < |cs| ==> cs[k] in Names(recs) && IndexOf(recs, cs[k]) > i
    decreases |recs| - i, 0, |cs|
  {
    if cs == [] then [] else PreOrder(recs, cs[0]) + PreOrderAll(recs, cs[1..], i)
  }

  /**
   * Walking the registry from a declared option visits exactly the names its
   * declaration introduced, in declaration order.
   */
  lemma {:induction false} PreOrderOfTree(recs: seq<OptionRecord>, s: OptSpec)
    requires ChildrenLater(recs) && Distinct(Names(recs))
    requires forall r :: r in Flat(s) ==> r in recs
    ensures Name(s) in Names(recs) && PreOrder(recs, Name(s)) == TreeNames(s)
    decreases s
  {
    assert RecordOf(s) in Flat(s);
    var j :| 0 <= j < |recs| && recs[j] == RecordOf(s);
    IndexOfDistinct(recs, j);
    forall k | 0 <= k < |s.children| ensures Name(s.children[k]) in Names(recs) && IndexOf(recs, Name(s.children[k])) > j {
      assert recs[j].childOptions[k] == Name(s.children[k]);
    }
    forall r | r in FlatAll(s.children) ensures r in recs {
      assert r in Flat(s);
    }
    PreOrderAllOfTree(recs, s.children, j);
  }

  lemma {:induction false} PreOrderAllOfTree(recs: seq<OptionRecord>, ss: seq<OptSpec>, i: int)
    requires ChildrenLater(recs) && Distinct(Names(recs)) && -1 <= i < |recs|
    requires forall r :: r in FlatAll(ss) ==> r in recs
    requires forall k :: 0 <= k < |ss| ==> Name(ss[k]) in Names(recs) && IndexOf(recs, Name(ss[k])) > i
    ensures PreOrderAll(recs, Heads(ss), i) == TreeNamesAll(ss)
    decreases ss
  {
    if ss != [] {
      forall r | r in Flat(ss[0]) ensures r in recs {
        FlatAllHas(ss, 0, r);
      }
      PreOrderOfTree(recs, ss[0]);
      forall r | r in FlatAll(ss[1..]) ensures r in recs {
        assert FlatAll(ss) == Flat(ss[0]) + FlatAll(ss[1..]);
      }
      assert Heads(ss)[1..] == Heads(ss[1..]);
      PreOrderAllOfTree(recs, ss[1..], i);
    }
  }

  // ---------------------------------------------------------------------
  // Appending a child to the record found by name

  /**
   * `hash = @valid_options.find { |x| x[:option] == parent }` followed by
   * `hash[:child_options].push(child)` (or creating the list): the first
   * record named `parent` gets `child` at the end of its children.
   */
  function AppendChild(recs: seq<OptionRecord>, parent: string, child: string): (r: seq<OptionRecord>)
    ensures Names(r) == Names(recs)
    ensures forall k :: 0 <= k < |r| ==> r[k].desc == recs[k].desc
  {
    if recs == [] then []
    else if recs[0].option == parent then
      [recs[0].(childOptions := recs[0].childOptions + [child])] + recs[1..]
    else [recs[0]] + AppendChild(recs[1..], parent, child)
  }

  /** Appending a child to a record placed after a prefix without that name leaves the prefix alone. */
  lemma {:induction false} AppendChildAfter(pre: seq<OptionRecord>, r: OptionRecord, post: seq<OptionRecord>, child: string)
    requires r.option !in Names(pre)
    ensures AppendChild(pre + [r] + post, r.option, child)
         == pre + [r.(childOptions := r.childOptions + [child])] + post
  {
    if pre == [] {
      assert pre + [r] + post == [r] + post;
    } else {
      assert pre[0].option == Names(pre)[0];
      assert (pre + [r] + post)[1..] == pre[1..] + [r] + post;
      assert Names(pre[1..]) == Names(pre)[1..];
      AppendChildAfter(pre[1..], r, post, child);
    }
  }

  /**
   * Only the first record named `parent` changes, and only by gaining `child`
   * as its last child.
   */
  lemma AppendChildEffect(recs: seq<OptionRecord>, parent: string, child: string)
    requires parent in Names(recs)
    ensures var i := IndexOf(recs, parent);
      AppendChild(recs, parent, child)
        == recs[..i] + [recs[i].(childOptions := recs[i].childOptions + [child])] + recs[i + 1..]
  {
    var i := IndexOf(recs, parent);
    assert recs == recs[..i] + [recs[i]] + recs[i + 1..];
    AppendChildAfter(recs[..i], recs[i], recs[i + 1..], child);
  }
}

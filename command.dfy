/**
 * `Homebrew::Command` (Library/Homebrew/command.rb): the object that a
 * command's option DSL fills in. `option` calls, with their nested blocks
 * written out as an `OptSpec` tree, push records onto `validOptions` and
 * names onto `rootOptions`, filing each nested name under the record of the
 * option whose block is being evaluated (`parent`).
 */
module Homebrew {
  import opened Wrappers
  import opened Text
  import opened Registry
  import opened Renderer
  import opened Validator

  /** `@valid_options` and `@root_options` together. */
  datatype Declarations = Declarations(recs: seq<OptionRecord>, roots: seq<string>)

  /** `parent`, when set, names a record that `find` can reach. */
  predicate ParentKnown(recs: seq<OptionRecord>, parent: Option<string>) {
    parent.Some? ==> parent.value in Names(recs)
  }

  /**
   * Where an `option` call files its name: as a root when `parent` is unset,
   * otherwise at the end of the children of the first record named `parent`.
   */
  function File(st: Declarations, parent: Option<string>, name: string): (r: Declarations)
    requires ParentKnown(st.recs, parent)
    ensures Names(r.recs) == Names(st.recs)
    ensures r.roots == st.roots + (if parent.None? then [name] else [])
  {
    if parent.None? then Declarations(st.recs, st.roots + [name])
    else Declarations(AppendChild(st.recs, parent.value, name), st.roots)
  }

  /**
   * What one `option` call (with its block) does to the declarations, with
   * `parent` as the option whose block it is in: file the name, push the
   * record (a leaf until its block files children under it), then evaluate
   * the block with the new option as parent.
   */
  function Declared(st: Declarations, parent: Option<string>, s: OptSpec): (r: Declarations)
    requires ParentKnown(st.recs, parent)
    ensures Names(st.recs) <= Names(r.recs)
    decreases s
  {
    var filed := File(st, parent, Name(s));
    var added := filed.recs + [OptionRecord(Name(s), s.desc, [])];
    assert Names(added)[|filed.recs|] == Name(s);
    DeclaredAll(Declarations(added, filed.roots), Some(Name(s)), s.children)
  }

  /** A sequence of `option` calls made in the same block, in order. */
  function DeclaredAll(st: Declarations, parent: Option<string>, ss: seq<OptSpec>): (r: Declarations)
    requires ParentKnown(st.recs, parent)
    ensures Names(st.recs) <= Names(r.recs)
    decreases ss
  {
    if ss == [] then st
    else Declared(DeclaredAll(st, parent, ss[..|ss| - 1]), parent, ss[|ss| - 1])
  }

  /** Filing under a parent is updating, in place, the record `find` picks for it. */
  lemma FileInPlace(recs: seq<OptionRecord>, roots: seq<string>, parent: string, name: string, i: nat)
    requires parent in Names(recs) && i == IndexOf(recs, parent)
    ensures File(Declarations(recs, roots), Some(parent), name)
         == Declarations(recs[i := recs[i].(childOptions := recs[i].childOptions + [name])], roots)
  {
    UpdateSplit(recs, i, recs[i].(childOptions := recs[i].childOptions + [name]));
    AppendChildEffect(recs, parent, name);
  }

  /** One `option` call: its name filed, its record pushed, then its block run with it as parent. */
  lemma DeclaredUnfold(st: Declarations, parent: Option<string>, s: OptSpec)
    requires ParentKnown(st.recs, parent)
    ensures var filed := File(st, parent, Name(s));
      var added := Declarations(filed.recs + [OptionRecord(Name(s), s.desc, [])], filed.roots);
      ParentKnown(added.recs, Some(Name(s))) && Declared(st, parent, s) == DeclaredAll(added, Some(Name(s)), s.children)
  {
    var filed := File(st, parent, Name(s));
    var added := filed.recs + [OptionRecord(Name(s), s.desc, [])];
    assert Names(added)[|filed.recs|] == Name(s);
  }

  /** Running one more call of a block after the first `k`. */
  lemma DeclaredAllStep(st: Declarations, parent: Option<string>, ss: seq<OptSpec>, k: nat)
    requires ParentKnown(st.recs, parent) && k < |ss|
    ensures ParentKnown(DeclaredAll(st, parent, ss[..k]).recs, parent)
    ensures DeclaredAll(st, parent, ss[..k + 1]) == Declared(DeclaredAll(st, parent, ss[..k]), parent, ss[k])
  {
    var r := DeclaredAll(st, parent, ss[..k]);
    if parent.Some? {
      PrefixHas(Names(st.recs), Names(r.recs), parent.value);
    }
    assert ss[..k + 1][..k] == ss[..k];
  }

  /**
   * Declaring an option whose names are new: after filing the name, the
   * option's records follow in pre-order, each record listing the options of
   * its block as children.
   */
  lemma {:induction false} DeclaredFlat(st: Declarations, parent: Option<string>, s: OptSpec)
    requires ParentKnown(st.recs, parent)
    requires Distinct(Names(st.recs) + TreeNames(s))
    ensures var filed := File(st, parent, Name(s));
      Declared(st, parent, s) == Declarations(filed.recs + Flat(s), filed.roots)
    decreases s, 0
  {
    var filed := File(st, parent, Name(s));
    var r0 := OptionRecord(Name(s), s.desc, []);
    assert Names(filed.recs + [r0])[|filed.recs|] == Name(s);
    assert Names(st.recs) + TreeNames(s) == Names(filed.recs) + [Name(s)] + TreeNamesAll(s.children);
    assert r0.(childOptions := r0.childOptions + Heads(s.children)) == RecordOf(s);
    calc {
      Declared(st, parent, s);
      DeclaredAll(Declarations(filed.recs + [r0], filed.roots), Some(Name(s)), s.children);
      { DeclaredAllFlat(filed.recs, r0, filed.roots, s.children); }
      Declarations(filed.recs + [RecordOf(s)] + FlatAll(s.children), filed.roots);
      Declarations(filed.recs + Flat(s), filed.roots);
    }
  }

  /** The names of a prefix, the record just pushed, and the records its block pushed. */
  lemma NamesAfter(a: seq<OptionRecord>, r: OptionRecord, ss: seq<OptSpec>)
    ensures Names(a + [r] + FlatAll(ss)) == Names(a) + [r.option] + TreeNamesAll(ss)
  {
    NamesAppend(a + [r], FlatAll(ss));
    NamesAppend(a, [r]);
    NamesOfFlatAll(ss);
  }

  /** The options of one block, declared after their parent's record `r`. */
  lemma {:induction false} DeclaredAllFlat(a: seq<OptionRecord>, r: OptionRecord, roots: seq<string>, ss: seq<OptSpec>)
    requires Distinct(Names(a) + [r.option] + TreeNamesAll(ss))
    ensures r.option in Names(a + [r])
    ensures DeclaredAll(Declarations(a + [r], roots), Some(r.option), ss)
         == Declarations(a + [r.(childOptions := r.childOptions + Heads(ss))] + FlatAll(ss), roots)
    decreases ss, 1
  {
    assert Names(a + [r])[|a|] == r.option;
    if ss == [] {
      assert r.(childOptions := r.childOptions + []) == r;
      assert a + [r] + FlatAll([]) == a + [r];
    } else {
      var init := ss[..|ss| - 1];
      var last := ss[|ss| - 1];
      DistinctInit(Names(a) + [r.option], ss);
      DeclaredAllFlat(a, r, roots, init);
      var r1 := r.(childOptions := r.childOptions + Heads(init));
      var r2 := r.(childOptions := r.childOptions + Heads(ss));
      HeadsSnoc(ss);
      assert r1.(childOptions := r1.childOptions + [Name(last)]) == r2;
      var st := Declarations(a + [r], roots);
      calc {
        DeclaredAll(st, Some(r.option), ss);
        Declared(DeclaredAll(st, Some(r.option), init), Some(r.option), last);
        Declared(Declarations(a + [r1] + FlatAll(init), roots), Some(r.option), last);
        { DeclaredAllLast(a, r, r1, roots, ss); }
        Declarations(a + [r2] + FlatAll(init) + Flat(last), roots);
        { FlatAllInit(ss); Assoc(a + [r2], FlatAll(init), Flat(last)); }
        Declarations(a + [r2] + FlatAll(ss), roots);
      }
    }
  }

  /** Distinct names before the last option of a block stay distinct without it. */
  lemma DistinctInit(pre: seq<string>, ss: seq<OptSpec>)
    requires ss != [] && Distinct(pre + TreeNamesAll(ss))
    ensures Distinct(pre + TreeNamesAll(ss[..|ss| - 1]) + TreeNames(ss[|ss| - 1]))
    ensures Distinct(pre + TreeNamesAll(ss[..|ss| - 1]))
  {
    var init := ss[..|ss| - 1];
    var last := ss[|ss| - 1];
    FlatAllInit(ss);
    DistinctAssoc(pre, TreeNamesAll(init), TreeNames(last));
    DistinctSplit(pre + TreeNamesAll(init), TreeNames(last));
  }

  lemma DistinctAfter(recs: seq<OptionRecord>, init: seq<OptSpec>, last: OptSpec)
    requires Distinct(Names(recs) + TreeNamesAll(init) + TreeNames(last))
    ensures Distinct(Names(recs + FlatAll(init)) + TreeNames(last))
  {
    NamesAppend(recs, FlatAll(init));
    NamesOfFlatAll(init);
  }

  lemma DistinctAssoc(a: seq<string>, b: seq<string>, c: seq<string>)
    requires Distinct(a + (b + c))
    ensures Distinct(a + b + c)
  {
    assert a + (b + c) == a + b + c;
  }

  lemma FlatAllInit(ss: seq<OptSpec>)
    requires ss != []
    ensures FlatAll(ss) == FlatAll(ss[..|ss| - 1]) + Flat(ss[|ss| - 1])
    ensures TreeNamesAll(ss) == TreeNamesAll(ss[..|ss| - 1]) + TreeNames(ss[|ss| - 1])
  {
    InitLast(ss);
    FlatAllSnoc(ss[..|ss| - 1], ss[|ss| - 1]);
  }

  lemma HeadsSnoc(ss: seq<OptSpec>)
    requires ss != []
    ensures Heads(ss) == Heads(ss[..|ss| - 1]) + [Name(ss[|ss| - 1])]
  {
  }

  /** The step of `DeclaredAllFlat`: the last option of the block. */
  lemma DeclaredAllLast(a: seq<OptionRecord>, r: OptionRecord, r1: OptionRecord, roots: seq<string>, ss: seq<OptSpec>)
    requires ss != [] && r1.option == r.option
    requires Distinct(Names(a) + [r.option] + TreeNamesAll(ss[..|ss| - 1]) + TreeNames(ss[|ss| - 1]))
    ensures r1.option in Names(a + [r1] + FlatAll(ss[..|ss| - 1]))
    ensures Declared(Declarations(a + [r1] + FlatAll(ss[..|ss| - 1]), roots), Some(r.option), ss[|ss| - 1])
         == Declarations(a + [r1.(childOptions := r1.childOptions + [Name(ss[|ss| - 1])])]
                           + FlatAll(ss[..|ss| - 1]) + Flat(ss[|ss| - 1]), roots)
    decreases ss, 0
  {
    var init := ss[..|ss| - 1];
    var last := ss[|ss| - 1];
    var mid := a + [r1] + FlatAll(init);
    FreshAfter(Names(a), r.option, TreeNamesAll(init), TreeNames(last));
    AppendChildAfter(a, r1, FlatAll(init), Name(last));
    NamesAfter(a, r1, init);
    assert Names(mid)[|a|] == r1.option;
    assert Names(mid) + TreeNames(last) == Names(a) + [r.option] + TreeNamesAll(init) + TreeNames(last);
    DeclaredFlat(Declarations(mid, roots), Some(r.option), last);
  }

  /** A name of a list with distinct names does not occur before its position. */
  lemma FreshAfter(pre: seq<string>, x: string, rest: seq<string>, more: seq<string>)
    requires Distinct(pre + [x] + rest + more)
    ensures x !in pre
  {
    var all := pre + [x] + rest + more;
    assert all[|pre|] == x;
    forall k | 0 <= k < |pre| ensures pre[k] != x {
      assert all[k] == pre[k];
    }
  }

  /** Top-level `option` calls with new names: records in pre-order, one root per call. */
  lemma {:induction false} DeclaredRoots(st: Declarations, ss: seq<OptSpec>)
    requires Distinct(Names(st.recs) + TreeNamesAll(ss))
    ensures DeclaredAll(st, None, ss) == Declarations(st.recs + FlatAll(ss), st.roots + Heads(ss))
    decreases ss
  {
    if ss != [] {
      var init := ss[..|ss| - 1];
      var last := ss[|ss| - 1];
      DistinctInit(Names(st.recs), ss);
      DeclaredRoots(st, init);
      DistinctAfter(st.recs, init, last);
      HeadsSnoc(ss);
      calc {
        DeclaredAll(st, None, ss);
        Declared(DeclaredAll(st, None, init), None, last);
        Declared(Declarations(st.recs + FlatAll(init), st.roots + Heads(init)), None, last);
        { DeclaredFlat(Declarations(st.recs + FlatAll(init), st.roots + Heads(init)), None, last); }
        Declarations(st.recs + FlatAll(init) + Flat(last), st.roots + Heads(init) + [Name(last)]);
        { FlatAllInit(ss); Assoc(st.recs, FlatAll(init), Flat(last)); Assoc(st.roots, Heads(init), [Name(last)]); }
        Declarations(st.recs + FlatAll(ss), st.roots + Heads(ss));
      }
    }
  }

  /**
   * The registry that the `option` calls of a fresh command build when the
   * names are distinct: exactly the records of the declarations in pre-order,
   * the top-level names as roots, and every child reference resolving to a
   * later record (so the renderers terminate).
   */
  lemma BuiltFromScratch(ss: seq<OptSpec>)
    requires Distinct(TreeNamesAll(ss))
    ensures var d := DeclaredAll(Declarations([], []), None, ss);
      d.recs == FlatAll(ss) && d.roots == Heads(ss) && ChildrenLater(d.recs)
      && Distinct(Names(d.recs)) && forall k :: 0 <= k < |d.roots| ==> d.roots[k] in Names(d.recs)
  {
    var none: seq<OptionRecord> := [];
    assert Names(none) == [];
    EmptyLeft(TreeNamesAll(ss));
    DeclaredRoots(Declarations(none, []), ss);
    EmptyLeft(FlatAll(ss));
    EmptyLeft(Heads(ss));
    BuiltRegistry(ss);
  }

  /**
   * An option `b` whose block declares `f`, then a top-level option `c`:
   * three records in declaration order, `f` filed under `b` only, and
   * `f` and `c` without children.
   */
  lemma NestedRegistry(b: string, f: string, c: string, db: string, df: string, dc: string)
    requires b != f && b != c && f != c
    ensures var d := DeclaredAll(Declarations([], []), None, [OptSpec(b, db, [OptSpec(f, df, [])]), OptSpec(c, dc, [])]);
      && d.recs == [OptionRecord("--" + b, db, ["--" + f]), OptionRecord("--" + f, df, []), OptionRecord("--" + c, dc, [])]
      && d.roots == ["--" + b, "--" + c]
  {
    var ss := [OptSpec(b, db, [OptSpec(f, df, [])]), OptSpec(c, dc, [])];
    NestedTree(b, f, c, db, df, dc);
    assert ("--" + b)[2..] == b && ("--" + f)[2..] == f && ("--" + c)[2..] == c;
    assert Distinct(["--" + b, "--" + f, "--" + c]);
    BuiltFromScratch(ss);
  }

  /** The names, records and roots of the declarations in `NestedRegistry`. */
  lemma NestedTree(b: string, f: string, c: string, db: string, df: string, dc: string)
    ensures var ss := [OptSpec(b, db, [OptSpec(f, df, [])]), OptSpec(c, dc, [])];
      && TreeNamesAll(ss) == ["--" + b, "--" + f, "--" + c]
      && FlatAll(ss) == [OptionRecord("--" + b, db, ["--" + f]), OptionRecord("--" + f, df, []), OptionRecord("--" + c, dc, [])]
      && Heads(ss) == ["--" + b, "--" + c]
  {
    var leaf := OptSpec(f, df, []);
    var ss := [OptSpec(b, db, [leaf]), OptSpec(c, dc, [])];
    assert ss[1..][1..] == [] && [leaf][1..] == [];
    assert TreeNamesAll([leaf]) == ["--" + f] + [];
    assert TreeNamesAll(ss[1..]) == ["--" + c] + [];
    assert FlatAll([leaf]) == [OptionRecord("--" + f, df, [])] + [];
    assert FlatAll(ss[1..]) == [OptionRecord("--" + c, dc, [])] + [];
    assert TreeNames(ss[0]) == ["--" + b, "--" + f];
    assert TreeNamesAll(ss) == ["--" + b, "--" + f] + ["--" + c];
    assert Heads([leaf]) == ["--" + f];
    assert Flat(ss[0]) == [OptionRecord("--" + b, db, ["--" + f]), OptionRecord("--" + f, df, [])];
    assert FlatAll(ss) == Flat(ss[0]) + [OptionRecord("--" + c, dc, [])];
  }

  /**
   * `desc`: the first call sets the description; a later call puts the new
   * text on a line after the old one and strips the whole.
   */
  function AddDescription(old_: Option<string>, text: string): string {
    match old_
    case None => text
    case Some(d) => Strip(d + "\n" + text)
  }

  /** Consecutive descriptions without surrounding whitespace are joined by one line feed. */
  lemma AddDescriptionJoins(d: string, text: string)
    requires d != [] && !IsSpace(d[0]) && !IsSpace(d[|d| - 1])
    requires text != [] && !IsSpace(text[0]) && !IsSpace(text[|text| - 1])
    ensures AddDescription(None, text) == text
    ensures AddDescription(Some(d), text) == d + "\n" + text
  {
    var s := d + "\n" + text;
    assert s[0] == d[0] && s[|s| - 1] == text[|text| - 1];
    StripFixed(s);
  }

  /**
   * Whatever the earlier description was, the new one is trimmed and ends
   * with the new text's last character; when the new text does not start
   * with whitespace, the new description ends with the whole new text.
   */
  lemma AddDescriptionTrimmed(d: string, text: string)
    requires text != [] && !IsSpace(text[|text| - 1])
    ensures var r := AddDescription(Some(d), text);
      r != [] && !IsSpace(r[0]) && r[|r| - 1] == text[|text| - 1]
    ensures var r := AddDescription(Some(d), text);
      !IsSpace(text[0]) ==> |text| <= |r| && r[|r| - |text|..] == text
  {
    var s := d + "\n" + text;
    assert s[|s| - 1] == text[|text| - 1];
    StripBounds(s);
    var t := SkipSpaces(s);
    assert t != [];
    assert t[|t| - 1] == s[|s| - 1];
    assert DropTrailingSpaces(t) == t;
    assert s[|d| + 1..] == text;
    if !IsSpace(text[0]) {
      assert s[|d| + 1] == text[0];
      assert |s| - |t| <= |d| + 1;
      assert t[|t| - |text|..] == s[|d| + 1..];
    }
  }

  // ---------------------------------------------------------------------
  // The top-level block of `options`

  /** A call the top-level block of `options` makes. */
  datatype Statement = SetName(cmd: string) | Describe(text: string) | Declare(spec: OptSpec)

  /** What the top-level calls set: the command's name, its description and its options. */
  datatype Settings = Settings(commandName: Option<string>, description: Option<string>, decls: Declarations)

  /** One top-level call; `option` calls here have no parent. */
  function Step(st: Settings, stmt: Statement): Settings {
    match stmt
    case SetName(cmd) => st.(commandName := Some(cmd))
    case Describe(text) => st.(description := Some(AddDescription(st.description, text)))
    case Declare(spec) => st.(decls := Declared(st.decls, None, spec))
  }

  /** The calls of a block, in order. */
  function Evaluate(st: Settings, block: seq<Statement>): Settings {
    if block == [] then st else Step(Evaluate(st, block[..|block| - 1]), block[|block| - 1])
  }

  /** Evaluating one more call is one more step. */
  lemma EvaluateStep(st: Settings, block: seq<Statement>, k: int)
    requires 0 <= k < |block|
    ensures Evaluate(st, block[..k + 1]) == Step(Evaluate(st, block[..k]), block[k])
  {
    assert block[..k + 1][..k] == block[..k];
  }

  /** The options a block declares at its top level, in order. */
  function Specs(block: seq<Statement>): seq<OptSpec> {
    if block == [] then []
    else Specs(block[..|block| - 1]) + (if block[|block| - 1].Declare? then [block[|block| - 1].spec] else [])
  }

  /** Naming and describing the command do not touch the options: they are the top-level declarations alone. */
  lemma {:induction false} EvaluateDeclares(st: Settings, block: seq<Statement>)
    ensures Evaluate(st, block).decls == DeclaredAll(st.decls, None, Specs(block))
  {
    if block != [] {
      var init := block[..|block| - 1];
      var last := block[|block| - 1];
      EvaluateDeclares(st, init);
      if last.Declare? {
        var ss := Specs(init) + [last.spec];
        assert ss[..|ss| - 1] == Specs(init);
      } else {
        assert Specs(block) == Specs(init) + [];
        EmptyRight(Specs(init));
      }
    }
  }

  /**
   * A fresh command whose top-level block declares distinct names ends up
   * with a registry the renderers can walk.
   */
  lemma EvaluatedRenderable(name: Option<string>, desc: Option<string>, block: seq<Statement>)
    requires Distinct(TreeNamesAll(Specs(block)))
    ensures Renderable(Evaluate(Settings(name, desc, Declarations([], [])), block).decls.recs,
                       Evaluate(Settings(name, desc, Declarations([], [])), block).decls.roots)
  {
    EvaluateDeclares(Settings(name, desc, Declarations([], [])), block);
    BuiltFromScratch(Specs(block));
  }

  // ---------------------------------------------------------------------
  // The object

  /** The state of a `Homebrew::Command` that its methods read and update. */
  class Command {
    var commandName: Option<string>
    var validOptions: seq<OptionRecord>
    var rootOptions: seq<string>
    var argv: seq<string>
    var description: Option<string>
    var parent: Option<string>
    var helpOutput: Option<string>
    var manOutput: Option<string>

    /** `Command.new`: nothing is set yet. */
    constructor()
      ensures commandName == None && validOptions == [] && rootOptions == [] && argv == []
      ensures description == None && parent == None && helpOutput == None && manOutput == None
    {
      commandName := None;
      validOptions := [];
      rootOptions := [];
      argv := [];
      description := None;
      parent := None;
      helpOutput := None;
      manOutput := None;
    }

    /** `initialize_variables`: empty registry, and the command line (passed in) saved. */
    method InitializeVariables(args: seq<string>)
      modifies this
      ensures validOptions == [] && rootOptions == [] && argv == args
      ensures commandName == old(commandName) && description == old(description) && parent == old(parent)
      ensures helpOutput == old(helpOutput) && manOutput == old(manOutput)
    {
      validOptions := [];
      rootOptions := [];
      argv := args;
    }

    /**
     * `options(&block)`: reset the registry, run the block's top-level calls
     * in order with no parent, then generate the man and help texts.
     */
    method Options(block: seq<Statement>, args: seq<string>, tty: Tty)
      modifies this
      requires Distinct(TreeNamesAll(Specs(block)))
      ensures Settings(commandName, description, Declarations(validOptions, rootOptions))
           == Evaluate(Settings(old(commandName), old(description), Declarations([], [])), block)
      ensures argv == args && parent == None
      ensures Renderable(validOptions, rootOptions)
      ensures manOutput == Some(ManText(commandName.GetOr(""), description.GetOr(""), validOptions, rootOptions))
      ensures helpOutput == Some(HelpText(manOutput.value, tty))
    {
      ghost var start := Settings(commandName, description, Declarations([], []));
      InitializeVariables(args);
      parent := None;
      var k := 0;
      while k < |block|
        invariant 0 <= k <= |block|
        invariant parent == None && argv == args
        invariant Settings(commandName, description, Declarations(validOptions, rootOptions)) == Evaluate(start, block[..k])
      {
        EvaluateStep(start, block, k);
        Run(block[k]);
        k := k + 1;
      }
      assert block[..k] == block;
      EvaluatedRenderable(start.commandName, start.description, block);
      ghost var decls := Evaluate(start, block).decls;
      assert decls.recs == validOptions && decls.roots == rootOptions;
      assert Renderable(validOptions, rootOptions);
      GenerateHelpAndManpageOutput(tty);
    }

    /** One top-level call of the `options` block, made with no parent. */
    method Run(stmt: Statement)
      modifies this
      requires parent == None
      ensures Settings(commandName, description, Declarations(validOptions, rootOptions))
           == Step(old(Settings(commandName, description, Declarations(validOptions, rootOptions))), stmt)
      ensures argv == old(argv) && parent == None
      ensures helpOutput == old(helpOutput) && manOutput == old(manOutput)
    {
      match stmt {
        case SetName(cmd) => CmdName(cmd);
        case Describe(text) => Desc(text);
        case Declare(spec) => Option(spec);
      }
    }

    /** `cmd_name(cmd)`. */
    method CmdName(cmd: string)
      modifies this
      ensures commandName == Some(cmd)
      ensures validOptions == old(validOptions) && rootOptions == old(rootOptions) && argv == old(argv)
      ensures description == old(description) && parent == old(parent)
      ensures helpOutput == old(helpOutput) && manOutput == old(manOutput)
    {
      commandName := Some(cmd);
    }

    /** `add_valid_option(option_hash)`: push a record. */
    method AddValidOption(r: OptionRecord)
      modifies this
      ensures validOptions == old(validOptions) + [r]
      ensures commandName == old(commandName) && rootOptions == old(rootOptions) && argv == old(argv)
      ensures description == old(description) && parent == old(parent)
      ensures helpOutput == old(helpOutput) && manOutput == old(manOutput)
    {
      validOptions := validOptions + [r];
    }

    /** `@valid_options.find { |x| x[:option] == name }`: the position of the first record so named. */
    method Find(name: string) returns (i: nat)
      requires name in Names(validOptions)
      ensures i == IndexOf(validOptions, name)
    {
      i := 0;
      while validOptions[i].option != name
        invariant i <= IndexOf(validOptions, name)
        decreases IndexOf(validOptions, name) - i
      {
        i := i + 1;
      }
    }

    /**
     * The filing part of `option`: push `name` onto the roots when `parent`
     * is unset, otherwise push it onto the children of the record `find`
     * picks for `parent`.
     */
    method FileOption(name: string)
      modifies this
      requires ParentKnown(validOptions, parent)
      ensures parent == old(parent) && commandName == old(commandName) && argv == old(argv) && description == old(description)
      ensures Declarations(validOptions, rootOptions) == File(old(Declarations(validOptions, rootOptions)), old(parent), name)
      ensures helpOutput == old(helpOutput) && manOutput == old(manOutput)
    {
      if parent.None? {
        rootOptions := rootOptions + [name];
      } else {
        var i := Find(parent.value);
        FileInPlace(validOptions, rootOptions, parent.value, name, i);
        var hash := validOptions[i];
        validOptions := validOptions[i := hash.(childOptions := hash.childOptions + [name])];
      }
    }

    /**
     * `option "word", desc: ... do ... end`: file the name (as a root, or in
     * the children of the option whose block this is), push the record, then
     * run the block with this option as `parent`, restoring `parent` after.
     */
    method Option(s: OptSpec)
      modifies this
      requires ParentKnown(validOptions, parent)
      ensures parent == old(parent)
      ensures commandName == old(commandName) && argv == old(argv) && description == old(description)
      ensures helpOutput == old(helpOutput) && manOutput == old(manOutput)
      ensures Declarations(validOptions, rootOptions)
           == Declared(old(Declarations(validOptions, rootOptions)), old(parent), s)
      decreases s
    {
      DeclaredUnfold(Declarations(validOptions, rootOptions), parent, s);
      var name := Name(s);
      FileOption(name);
      AddValidOption(OptionRecord(name, s.desc, []));
      var oldParent := parent;
      parent := Some(name);
      RunBlock(s.children);
      parent := oldParent;
    }

    /** `instance_eval(&block)` for a block of `option` calls: make them one after the other (all but the last, then the last). */
    method RunBlock(ss: seq<OptSpec>)
      modifies this
      requires ParentKnown(validOptions, parent)
      ensures parent == old(parent)
      ensures commandName == old(commandName) && argv == old(argv) && description == old(description)
      ensures helpOutput == old(helpOutput) && manOutput == old(manOutput)
      ensures Declarations(validOptions, rootOptions)
           == DeclaredAll(old(Declarations(validOptions, rootOptions)), old(parent), ss)
      decreases ss
    {
      if ss != [] {
        ghost var start := Declarations(validOptions, rootOptions);
        var init := ss[..|ss| - 1];
        RunBlock(init);
        DeclaredAllStep(start, parent, ss, |ss| - 1);
        Option(ss[|ss| - 1]);
      }
    }

    /** `desc(text)`: set the description, or add `text` on a new line and strip. */
    method Desc(text: string)
      modifies this
      ensures description == Some(AddDescription(old(description), text))
      ensures commandName == old(commandName) && validOptions == old(validOptions) && rootOptions == old(rootOptions)
      ensures argv == old(argv) && parent == old(parent)
      ensures helpOutput == old(helpOutput) && manOutput == old(manOutput)
    {
      description := Some(AddDescription(description, text));
    }

    /**
     * `argv_invalid_options_passed`: a name is reported exactly when it is
     * undeclared and is the name part of some `--` token of `args`; the
     * order and repeats are those `Validator.InvalidOptionsOrder` gives.
     */
    function ArgvInvalidOptionsPassed(args: seq<string>): (r: seq<string>)
      reads this
      ensures r == InvalidOptionsPassed(Names(validOptions), args)
      ensures forall x :: x in r <==> x !in Names(validOptions) && exists t :: t in args && OptionLike(t) && FirstField(t) == x
    {
      var r := InvalidOptionsPassed(Names(validOptions), args);
      forall x
        ensures x in r <==> x !in Names(validOptions) && exists t :: t in args && OptionLike(t) && FirstField(t) == x
      {
        InvalidOptionsMembers(Names(validOptions), args, x);
      }
      r
    }

    /** `get_error_message`: `nil` exactly when no invalid option was passed. */
    function GetErrorMessage(args: seq<string>): (r: Option<string>)
      reads this
      ensures r.None? <==> ArgvInvalidOptionsPassed(args) == []
    {
      ErrorMessage(Names(validOptions), args)
    }

    /**
     * `generate_help_and_manpage_output`: store the man text, then split it
     * into lines, restyle each line in place, and store them joined as the
     * help text.
     */
    method GenerateHelpAndManpageOutput(tty: Tty)
      modifies this
      requires Renderable(validOptions, rootOptions)
      ensures commandName == old(commandName) && validOptions == old(validOptions) && rootOptions == old(rootOptions)
      ensures argv == old(argv) && description == old(description) && parent == old(parent)
      ensures manOutput == Some(ManText(old(commandName).GetOr(""), old(description).GetOr(""), old(validOptions), old(rootOptions)))
      ensures helpOutput == Some(HelpText(manOutput.value, tty))
    {
      var man := ManText(commandName.GetOr(""), description.GetOr(""), validOptions, rootOptions);
      manOutput := Some(man);
      var help := RestyleText(man, tty);
      helpOutput := Some(help);
    }
  }

  /** Split the man text into lines, restyle them in place, and join them again. */
  method RestyleText(man: string, tty: Tty) returns (help: string)
    ensures help == HelpText(man, tty)
  {
    var lines := Lines(man);
    var helpLines := new string[|lines|](k requires 0 <= k < |lines| => lines[k]);
    assert helpLines[..] == lines;
    RestyleLines(helpLines, tty, lines);
    help := Join(helpLines[..], "\n");
  }

  /** `help_lines.map! { |line| ... }`: restyle every line of the array in place. */
  method RestyleLines(lines: array<string>, tty: Tty, ghost text: seq<string>)
    modifies lines
    requires lines[..] == text
    ensures lines[..] == RestyleAll(text, tty)
  {
    var k := 0;
    while k < lines.Length
      invariant 0 <= k <= lines.Length
      invariant forall j :: 0 <= j < k ==> lines[j] == Restyle(text[j], tty)
      invariant forall j :: k <= j < lines.Length ==> lines[j] == text[j]
    {
      lines[k] := Restyle(lines[k], tty);
      k := k + 1;
    }
  }
}

/**
 * The help and manpage text of `Homebrew::Command`
 * (Library/Homebrew/command.rb:93-155): the bracketed synopsis built by
 * `option_string`, the "If ... is passed" / "With ..." lines built by
 * `desc_string`, the manpage text that puts them together, and the help text
 * that restyles it line by line for the terminal.
 *
 * Both renderers walk the registry by name, as the source does with
 * `@valid_options.find`; they are defined on registries in which every child
 * reference resolves to a later record (`ChildrenLater`), which is what makes
 * the recursion of the source terminate.
 */
module Renderer {
  import opened Text
  import opened Registry

  /** The terminal codes `Tty.bold`, `Tty.underline` and `Tty.reset`. */
  datatype Tty = Tty(bold: string, underline: string, reset: string)

  /** A name in backticks, as the templates write it: `` `#{option}` ``. */
  function Code(name: string): (r: string)
    ensures |r| == |name| + 2 && r[0] == '`' && r[|r| - 1] == '`'
  {
    "`" + name + "`"
  }

  /** What rendering needs: child references resolve forwards and every root is declared. */
  ghost predicate Renderable(recs: seq<OptionRecord>, roots: seq<string>) {
    ChildrenLater(recs) && forall k :: 0 <= k < |roots| ==> roots[k] in Names(recs)
  }

  /** No declared name contains `c`. */
  predicate NamesFree(recs: seq<OptionRecord>, c: char) {
    forall k :: 0 <= k < |recs| ==> c !in recs[k].option
  }

  // ---------------------------------------------------------------------
  // option_string

  /**
   * `option_string(option)`: `[`--x`]` for a leaf; for an option with
   * children, the same text with `` `--x` `` replaced by itself followed by
   * the children's option strings, joined by single spaces.
   */
  function OptionString(recs: seq<OptionRecord>, name: string): string
    requires ChildrenLater(recs) && name in Names(recs)
    decreases |recs| - IndexOf(recs, name), 1, 0
  {
    var i := IndexOf(recs, name);
    var output := "[" + Code(name) + "]";
    if recs[i].childOptions == [] then output
    else ReplaceAll(output, Code(name), Code(name) + " " + Join(OptionStrings(recs, recs[i].childOptions, i), " "))
  }

  /** `child_options.map { |co| option_string(co) }`, for references resolving after index `i`. */
  function OptionStrings(recs: seq<OptionRecord>, cs: seq<string>, i: int): (r: seq<string>)
    requires ChildrenLater(recs) && -1 <= i < |recs|
    requires forall k :: 0 <= k < |cs| ==> cs[k] in Names(recs) && IndexOf(recs, cs[k]) > i
    ensures |r| == |cs|
    decreases |recs| - i, 0, |cs|
  {
    if cs == [] then [] else [OptionString(recs, cs[0])] + OptionStrings(recs, cs[1..], i)
  }

  /** `[`name`tail]`: an option's name in backticks and what follows it, in brackets. */
  function Bracket(name: string, tail: string): string {
    "[" + Code(name) + tail + "]"
  }

  /** What `option_string` puts after an option's name: nothing, or a space and its children's strings. */
  function ChildList(recs: seq<OptionRecord>, name: string): string
    requires ChildrenLater(recs) && name in Names(recs)
  {
    var i := IndexOf(recs, name);
    if recs[i].childOptions == [] then "" else " " + Join(OptionStrings(recs, recs[i].childOptions, i), " ")
  }

  /** Replacing the bracketed token with `rep` puts `rep` between the brackets. */
  lemma ReplaceBracketed(name: string, rep: string)
    ensures ReplaceAll("[" + Code(name) + "]", Code(name), rep) == "[" + rep + "]"
  {
    var p := Code(name);
    var s := "[" + p + "]";
    var t := p + "]";
    assert s[0] == '[' && s[1..] == t;
    assert !(p <= s) by {
      assert p[0] != s[0];
    }
    assert ReplaceAll(s, p, rep) == "[" + ReplaceAll(t, p, rep);
    assert p <= t && t[|p|..] == "]";
    assert ReplaceAll(t, p, rep) == rep + ReplaceAll("]", p, rep);
  }

  /**
   * The gsub inserts the children right after the option's own name: a leaf
   * is `[`--x`]`, and an option with children is `[`--x` c1 c2 ...]`.
   */
  lemma OptionStringShape(recs: seq<OptionRecord>, name: string)
    requires ChildrenLater(recs) && name in Names(recs)
    ensures OptionString(recs, name) == Bracket(name, ChildList(recs, name))
  {
    var i := IndexOf(recs, name);
    var p := Code(name);
    if recs[i].childOptions != [] {
      var joined := Join(OptionStrings(recs, recs[i].childOptions, i), " ");
      ReplaceBracketed(name, p + " " + joined);
      BracketAfter(name, " ", joined);
    } else {
      BracketEmpty(name);
    }
  }

  lemma BracketAfter(name: string, sep: string, more: string)
    ensures "[" + (Code(name) + sep + more) + "]" == Bracket(name, sep + more)
  {
    Assoc(Code(name), sep, more);
    Assoc("[", Code(name), sep + more);
  }

  lemma BracketEmpty(name: string)
    ensures "[" + Code(name) + "]" == Bracket(name, "")
  {
    assert Code(name) + "" == Code(name);
  }

  /** The backticked name opening a bracket is its first span. */
  lemma SpansBracket(name: string, tail: string, rest: string)
    requires '`' !in name
    ensures Spans(Bracket(name, tail) + rest, '`', '`') == [name] + Spans(tail + ("]" + rest), '`', '`')
  {
    var after := tail + ("]" + rest);
    assert Bracket(name, tail) + rest == "[" + (['`'] + name + ['`'] + after);
    SpansSkip("[", ['`'] + name + ['`'] + after, '`', '`');
    SpansSpan(name, after, '`', '`');
  }

  /**
   * The backticked names in an option string are exactly the option and its
   * descendants, each once, in pre-order.
   */
  lemma {:induction false} OptionStringSpans(recs: seq<OptionRecord>, name: string, rest: string)
    requires ChildrenLater(recs) && name in Names(recs) && NamesFree(recs, '`')
    ensures Spans(OptionString(recs, name) + rest, '`', '`') == PreOrder(recs, name) + Spans(rest, '`', '`')
    decreases |recs| - IndexOf(recs, name), 2, 0
  {
    var i := IndexOf(recs, name);
    var cs := recs[i].childOptions;
    OptionStringShape(recs, name);
    assert '`' !in recs[i].option;
    var tail := ChildList(recs, name);
    calc {
      Spans(OptionString(recs, name) + rest, '`', '`');
      Spans(Bracket(name, tail) + rest, '`', '`');
      { SpansBracket(name, tail, rest); }
      [name] + Spans(tail + ("]" + rest), '`', '`');
      { ChildListSpans(recs, name, rest); }
      [name] + (PreOrderAll(recs, cs, i) + Spans(rest, '`', '`'));
      { Assoc([name], PreOrderAll(recs, cs, i), Spans(rest, '`', '`')); }
      PreOrder(recs, name) + Spans(rest, '`', '`');
    }
  }

  lemma {:induction false} ChildListSpans(recs: seq<OptionRecord>, name: string, rest: string)
    requires ChildrenLater(recs) && name in Names(recs) && NamesFree(recs, '`')
    ensures var i := IndexOf(recs, name);
      Spans(ChildList(recs, name) + ("]" + rest), '`', '`')
        == PreOrderAll(recs, recs[i].childOptions, i) + Spans(rest, '`', '`')
    decreases |recs| - IndexOf(recs, name), 1, 0
  {
    var i := IndexOf(recs, name);
    var cs := recs[i].childOptions;
    SpansSkip("]", rest, '`', '`');
    if cs == [] {
      EmptyLeft(Spans(rest, '`', '`'));
      assert ChildList(recs, name) + ("]" + rest) == "]" + rest;
    } else {
      var joined := Join(OptionStrings(recs, cs, i), " ");
      assert ChildList(recs, name) + ("]" + rest) == " " + (joined + ("]" + rest));
      SpansSkip(" ", joined + ("]" + rest), '`', '`');
      OptionStringsSpans(recs, cs, i, "]" + rest);
    }
  }

  lemma {:induction false} OptionStringsSpans(recs: seq<OptionRecord>, cs: seq<string>, i: int, rest: string)
    requires ChildrenLater(recs) && -1 <= i < |recs| && NamesFree(recs, '`')
    requires forall k :: 0 <= k < |cs| ==> cs[k] in Names(recs) && IndexOf(recs, cs[k]) > i
    ensures Spans(Join(OptionStrings(recs, cs, i), " ") + rest, '`', '`')
         == PreOrderAll(recs, cs, i) + Spans(rest, '`', '`')
    decreases |recs| - i, 0, |cs|
  {
    var oss := OptionStrings(recs, cs, i);
    if cs == [] {
      assert "" + rest == rest;
    } else if |cs| == 1 {
      ConsParts(OptionString(recs, cs[0]), OptionStrings(recs, cs[1..], i));
      assert Join(oss, " ") == oss[0];
      assert PreOrderAll(recs, cs[1..], i) == [];
      EmptyRight(PreOrder(recs, cs[0]));
      OptionStringSpans(recs, cs[0], rest);
    } else {
      var tailJoin := Join(OptionStrings(recs, cs[1..], i), " ");
      var head, tail, after := PreOrder(recs, cs[0]), PreOrderAll(recs, cs[1..], i), Spans(rest, '`', '`');
      ConsParts(OptionString(recs, cs[0]), OptionStrings(recs, cs[1..], i));
      assert PreOrderAll(recs, cs, i) == head + tail;
      JoinFront(oss, " ", rest);
      calc {
        Spans(Join(oss, " ") + rest, '`', '`');
        Spans(oss[0] + (" " + (tailJoin + rest)), '`', '`');
        { OptionStringSpans(recs, cs[0], " " + (tailJoin + rest)); }
        head + Spans(" " + (tailJoin + rest), '`', '`');
        { SpansSkip(" ", tailJoin + rest, '`', '`'); }
        head + Spans(tailJoin + rest, '`', '`');
        { OptionStringsSpans(recs, cs[1..], i, rest); }
        head + (tail + after);
        { Assoc(head, tail, after); }
        head + tail + after;
      }
    }
  }

  /** Reading a bracket whose name has no brackets: one level in, then the tail. */
  lemma DepthBracket(name: string, tail: string, rest: string, d: nat)
    requires '[' !in name && ']' !in name
    ensures Depth(Bracket(name, tail) + rest, d, '[', ']') == Depth(tail + ("]" + rest), d + 1, '[', ']')
    ensures Depth("]" + rest, d + 1, '[', ']') == Depth(rest, d, '[', ']')
  {
    var s := Bracket(name, tail) + rest;
    assert s == "[" + (Code(name) + (tail + ("]" + rest)));
    assert s[0] == '[' && s[1..] == Code(name) + (tail + ("]" + rest));
    DepthSkip(Code(name), tail + ("]" + rest), d + 1, '[', ']');
    var t := "]" + rest;
    assert t[0] == ']' && t[1..] == rest;
  }

  /** Reading an option string leaves the bracket depth where it was: its brackets balance. */
  lemma {:induction false} OptionStringDepth(recs: seq<OptionRecord>, name: string, rest: string, d: nat)
    requires ChildrenLater(recs) && name in Names(recs) && NamesFree(recs, '[') && NamesFree(recs, ']')
    ensures Depth(OptionString(recs, name) + rest, d, '[', ']') == Depth(rest, d, '[', ']')
    decreases |recs| - IndexOf(recs, name), 2, 0
  {
    var i := IndexOf(recs, name);
    var cs := recs[i].childOptions;
    OptionStringShape(recs, name);
    assert '[' !in recs[i].option && ']' !in recs[i].option;
    var tail := ChildList(recs, name);
    calc {
      Depth(OptionString(recs, name) + rest, d, '[', ']');
      Depth(Bracket(name, tail) + rest, d, '[', ']');
      { DepthBracket(name, tail, rest, d); }
      Depth(tail + ("]" + rest), d + 1, '[', ']');
      { ChildListDepth(recs, name, "]" + rest, d + 1); }
      Depth("]" + rest, d + 1, '[', ']');
      { DepthBracket(name, tail, rest, d); }
      Depth(rest, d, '[', ']');
    }
  }

  lemma {:induction false} ChildListDepth(recs: seq<OptionRecord>, name: string, rest: string, d: nat)
    requires ChildrenLater(recs) && name in Names(recs) && NamesFree(recs, '[') && NamesFree(recs, ']')
    ensures Depth(ChildList(recs, name) + rest, d, '[', ']') == Depth(rest, d, '[', ']')
    decreases |recs| - IndexOf(recs, name), 1, 0
  {
    var i := IndexOf(recs, name);
    var cs := recs[i].childOptions;
    if cs == [] {
      assert ChildList(recs, name) + rest == rest;
    } else {
      var joined := Join(OptionStrings(recs, cs, i), " ");
      assert ChildList(recs, name) + rest == " " + (joined + rest);
      DepthSkip(" ", joined + rest, d, '[', ']');
      OptionStringsDepth(recs, cs, i, rest, d);
    }
  }

  lemma {:induction false} OptionStringsDepth(recs: seq<OptionRecord>, cs: seq<string>, i: int, rest: string, d: nat)
    requires ChildrenLater(recs) && -1 <= i < |recs| && NamesFree(recs, '[') && NamesFree(recs, ']')
    requires forall k :: 0 <= k < |cs| ==> cs[k] in Names(recs) && IndexOf(recs, cs[k]) > i
    ensures Depth(Join(OptionStrings(recs, cs, i), " ") + rest, d, '[', ']') == Depth(rest, d, '[', ']')
    decreases |recs| - i, 0, |cs|
  {
    var oss := OptionStrings(recs, cs, i);
    if cs == [] {
      assert "" + rest == rest;
    } else if |cs| == 1 {
      ConsParts(OptionString(recs, cs[0]), OptionStrings(recs, cs[1..], i));
      assert Join(oss, " ") == oss[0];
      OptionStringDepth(recs, cs[0], rest, d);
    } else {
      var tailJoin := Join(OptionStrings(recs, cs[1..], i), " ");
      ConsParts(OptionString(recs, cs[0]), OptionStrings(recs, cs[1..], i));
      JoinFront(oss, " ", rest);
      calc {
        Depth(Join(oss, " ") + rest, d, '[', ']');
        Depth(oss[0] + (" " + (tailJoin + rest)), d, '[', ']');
        { OptionStringDepth(recs, cs[0], " " + (tailJoin + rest), d); }
        Depth(" " + (tailJoin + rest), d, '[', ']');
        { DepthSkip(" ", tailJoin + rest, d, '[', ']'); }
        Depth(tailJoin + rest, d, '[', ']');
        { OptionStringsDepth(recs, cs[1..], i, rest, d); }
        Depth(rest, d, '[', ']');
      }
    }
  }

  // ---------------------------------------------------------------------
  // The synopsis: option strings joined, whitespace runs collapsed

  /** Every declared name is collapsed: its only whitespace is single spaces. */
  predicate NamesCollapsed(recs: seq<OptionRecord>) {
    forall k :: 0 <= k < |recs| ==> Collapsed(recs[k].option)
  }

  /** `@root_options.map { |ro| option_string(ro) }.join(" ").gsub(/\s+/, " ")`. */
  function Synopsis(recs: seq<OptionRecord>, roots: seq<string>): string
    requires Renderable(recs, roots)
  {
    CollapseSpaces(Join(OptionStrings(recs, roots, -1), " "))
  }

  /** A collapsed name in backticks is tight. */
  lemma CodeTight(name: string)
    requires Collapsed(name)
    ensures Tight(Code(name))
  {
    CollapsedCons('`', name);
    CollapsedConcat("`" + name, "`");
  }

  lemma {:induction false} OptionStringTight(recs: seq<OptionRecord>, name: string)
    requires ChildrenLater(recs) && name in Names(recs) && NamesCollapsed(recs)
    ensures Tight(OptionString(recs, name))
    decreases |recs| - IndexOf(recs, name), 1, 0
  {
    var i := IndexOf(recs, name);
    var cs := recs[i].childOptions;
    OptionStringShape(recs, name);
    assert Collapsed(recs[i].option);
    CodeTight(name);
    if cs == [] {
      BracketInner(name, "");
      assert Code(name) + "" == Code(name);
      TightWrap('[', Code(name), ']');
    } else {
      var joined := Join(OptionStrings(recs, cs, i), " ");
      OptionStringsTight(recs, cs, i);
      TightSpaced(Code(name), joined);
      BracketInner(name, " " + joined);
      Assoc(Code(name), " ", joined);
      TightWrap('[', Code(name) + " " + joined, ']');
    }
  }

  lemma BracketInner(name: string, tail: string)
    ensures Bracket(name, tail) == ['['] + (Code(name) + tail) + [']']
  {
  }

  /** A non-empty list of option strings joined by spaces is tight. */
  lemma {:induction false} OptionStringsTight(recs: seq<OptionRecord>, cs: seq<string>, i: int)
    requires ChildrenLater(recs) && -1 <= i < |recs| && NamesCollapsed(recs) && cs != []
    requires forall k :: 0 <= k < |cs| ==> cs[k] in Names(recs) && IndexOf(recs, cs[k]) > i
    ensures Tight(Join(OptionStrings(recs, cs, i), " "))
    decreases |recs| - i, 0, |cs|
  {
    var oss := OptionStrings(recs, cs, i);
    ConsParts(OptionString(recs, cs[0]), OptionStrings(recs, cs[1..], i));
    OptionStringTight(recs, cs[0]);
    if |cs| > 1 {
      OptionStringsTight(recs, cs[1..], i);
      TightSpaced(oss[0], Join(oss[1..], " "));
    }
  }

  /**
   * When every name is collapsed, collapsing whitespace changes nothing: the
   * synopsis is the root option strings joined by single spaces.
   */
  lemma SynopsisJoined(recs: seq<OptionRecord>, roots: seq<string>)
    requires Renderable(recs, roots) && NamesCollapsed(recs)
    ensures Synopsis(recs, roots) == Join(OptionStrings(recs, roots, -1), " ")
  {
    if roots != [] {
      OptionStringsTight(recs, roots, -1);
      CollapseSpacesFixed(Join(OptionStrings(recs, roots, -1), " "));
    }
  }

  /**
   * The names in backticks in the synopsis are every option reachable from
   * a root, each as often as the walk meets it, in pre-order.
   */
  lemma SynopsisSpans(recs: seq<OptionRecord>, roots: seq<string>)
    requires Renderable(recs, roots) && NamesCollapsed(recs) && NamesFree(recs, '`')
    ensures Spans(Synopsis(recs, roots), '`', '`') == PreOrderAll(recs, roots, -1)
  {
    SynopsisJoined(recs, roots);
    var j := Join(OptionStrings(recs, roots, -1), " ");
    OptionStringsSpans(recs, roots, -1, "");
    assert j + "" == j;
    EmptyRight(PreOrderAll(recs, roots, -1));
  }

  /** The brackets of the synopsis balance, and never close more than they opened. */
  lemma SynopsisBalanced(recs: seq<OptionRecord>, roots: seq<string>)
    requires Renderable(recs, roots) && NamesCollapsed(recs) && NamesFree(recs, '[') && NamesFree(recs, ']')
    ensures Depth(Synopsis(recs, roots), 0, '[', ']') == 0
  {
    SynopsisJoined(recs, roots);
    var j := Join(OptionStrings(recs, roots, -1), " ");
    OptionStringsDepth(recs, roots, -1, "", 0);
    assert j + "" == j;
  }

  // ---------------------------------------------------------------------
  // desc_string

  /** What the gsub puts in place of the backticked name: "With `--x`" nested, "If `--x` is passed" at the top. */
  function Lead(name: string, nested: bool): string {
    if nested then "With " + Code(name) else "If " + Code(name) + " is passed"
  }

  /**
   * `desc_string(option, parent_present)`: the line "`--x`, desc" with the
   * backticked name replaced by its lead, followed, for an option with
   * children, by four spaces and the children's strings joined by four spaces.
   */
  function DescString(recs: seq<OptionRecord>, name: string, nested: bool): string
    requires ChildrenLater(recs) && name in Names(recs)
    decreases |recs| - IndexOf(recs, name), 1, 0
  {
    var i := IndexOf(recs, name);
    var output := ReplaceAll(Code(name) + ", " + recs[i].desc + "\n", Code(name), Lead(name, nested));
    if recs[i].childOptions == [] then output
    else output + "    " + Join(DescStrings(recs, recs[i].childOptions, i, true), "    ")
  }

  /** `child_options.map { |co| desc_string(co, nested) }`, for references resolving after index `i`. */
  function DescStrings(recs: seq<OptionRecord>, cs: seq<string>, i: int, nested: bool): (r: seq<string>)
    requires ChildrenLater(recs) && -1 <= i < |recs|
    requires forall k :: 0 <= k < |cs| ==> cs[k] in Names(recs) && IndexOf(recs, cs[k]) > i
    ensures |r| == |cs|
    decreases |recs| - i, 0, |cs|
  {
    if cs == [] then [] else [DescString(recs, cs[0], nested)] + DescStrings(recs, cs[1..], i, nested)
  }

  /** No description contains `c`. */
  predicate DescsFree(recs: seq<OptionRecord>, c: char) {
    forall k :: 0 <= k < |recs| ==> c !in recs[k].desc
  }

  /** The description of a declared option; "" for a name that is not declared. */
  function DescOf(recs: seq<OptionRecord>, name: string): string {
    if name in Names(recs) then recs[IndexOf(recs, name)].desc else ""
  }

  /** The line a nested option gets: "    With `--x`, desc". */
  function Line(recs: seq<OptionRecord>, name: string): string {
    "    " + Lead(name, true) + ", " + DescOf(recs, name) + "\n"
  }

  /** The lines of the options `names`, one after the other. */
  function Block(recs: seq<OptionRecord>, names: seq<string>): string {
    if names == [] then "" else Line(recs, names[0]) + Block(recs, names[1..])
  }

  lemma {:induction false} BlockAppend(recs: seq<OptionRecord>, a: seq<string>, b: seq<string>)
    ensures Block(recs, a + b) == Block(recs, a) + Block(recs, b)
  {
    if a == [] {
      assert a + b == b;
    } else {
      ConsParts(a[0], a[1..] + b);
      assert a + b == [a[0]] + (a[1..] + b);
      BlockAppend(recs, a[1..], b);
      Assoc(Line(recs, a[0]), Block(recs, a[1..]), Block(recs, b));
    }
  }

  /** The head line of an option's description string, once its name is replaced by the lead. */
  lemma DescHead(recs: seq<OptionRecord>, name: string, nested: bool)
    requires ChildrenLater(recs) && name in Names(recs) && DescsFree(recs, '`')
    ensures var d := recs[IndexOf(recs, name)].desc;
      ReplaceAll(Code(name) + ", " + d + "\n", Code(name), Lead(name, nested)) == Lead(name, nested) + ", " + d + "\n"
  {
    var d := recs[IndexOf(recs, name)].desc;
    var rest := ", " + d + "\n";
    assert '`' !in rest;
    ReplaceAllLead(Code(name), rest, Lead(name, nested));
    Assoc(Code(name), ", " + d, "\n");
    Assoc(Code(name), ", ", d);
    Assoc(Lead(name, nested), ", " + d, "\n");
    Assoc(Lead(name, nested), ", ", d);
  }

  /**
   * The lines the help promises for an option: its own line, then one "With"
   * line for each of its descendants, in pre-order, all at the same
   * four-space indentation.
   */
  function DescLines(recs: seq<OptionRecord>, name: string, nested: bool): string
    requires ChildrenLater(recs) && name in Names(recs)
  {
    Lead(name, nested) + ", " + DescOf(recs, name) + "\n" + Block(recs, PreOrder(recs, name)[1..])
  }

  /** When no description contains a backtick, an option's description string is exactly those lines. */
  lemma {:induction false} DescStringBlock(recs: seq<OptionRecord>, name: string, nested: bool)
    requires ChildrenLater(recs) && name in Names(recs) && DescsFree(recs, '`')
    ensures DescString(recs, name, nested) == DescLines(recs, name, nested)
    decreases |recs| - IndexOf(recs, name), 1, 0
  {
    var i := IndexOf(recs, name);
    var cs := recs[i].childOptions;
    DescStringUnfold(recs, name, nested);
    ConsParts(name, PreOrderAll(recs, cs, i));
    if cs != [] {
      DescStringsBlock(recs, cs, i);
    }
  }

  /** What `desc_string` puts after an option's own line: nothing, or its children's strings. */
  function ChildLines(recs: seq<OptionRecord>, name: string): string
    requires ChildrenLater(recs) && name in Names(recs)
  {
    var i := IndexOf(recs, name);
    if recs[i].childOptions == [] then "" else "    " + Join(DescStrings(recs, recs[i].childOptions, i, true), "    ")
  }

  lemma DescStringUnfold(recs: seq<OptionRecord>, name: string, nested: bool)
    requires ChildrenLater(recs) && name in Names(recs) && DescsFree(recs, '`')
    ensures DescString(recs, name, nested) == Lead(name, nested) + ", " + DescOf(recs, name) + "\n" + ChildLines(recs, name)
    ensures recs[IndexOf(recs, name)].childOptions == [] ==> ChildLines(recs, name) == ""
  {
    var i := IndexOf(recs, name);
    DescHead(recs, name, nested);
    var head := Lead(name, nested) + ", " + DescOf(recs, name) + "\n";
    if recs[i].childOptions == [] {
      EmptyRight(head);
    } else {
      Assoc(head, "    ", Join(DescStrings(recs, recs[i].childOptions, i, true), "    "));
    }
  }

  /** Four spaces and the nested description strings joined by four spaces are the lines of the subtrees. */
  lemma {:induction false} DescStringsBlock(recs: seq<OptionRecord>, cs: seq<string>, i: int)
    requires ChildrenLater(recs) && -1 <= i < |recs| && DescsFree(recs, '`') && cs != []
    requires forall k :: 0 <= k < |cs| ==> cs[k] in Names(recs) && IndexOf(recs, cs[k]) > i
    ensures "    " + Join(DescStrings(recs, cs, i, true), "    ") == Block(recs, PreOrderAll(recs, cs, i))
    decreases |recs| - i, 0, |cs|
  {
    var c := cs[0];
    var ds := DescStrings(recs, cs, i, true);
    ConsParts(DescString(recs, c, true), DescStrings(recs, cs[1..], i, true));
    DescStringBlock(recs, c, true);
    var sub := PreOrder(recs, c)[1..];
    NestedLine(recs, c, Block(recs, sub));
    ConsParts(c, sub);
    // "    " + DescString(c) is the block of the subtree rooted at c
    assert "    " + ds[0] == Block(recs, PreOrder(recs, c));
    if |cs| == 1 {
      assert Join(ds, "    ") == ds[0];
      assert PreOrderAll(recs, cs[1..], i) == [];
      EmptyRight(PreOrder(recs, c));
    } else {
      DescStringsBlock(recs, cs[1..], i);
      JoinFront(ds, "    ", "");
      assert Join(ds, "    ") + "" == Join(ds, "    ");
      assert Join(ds[1..], "    ") + "" == Join(ds[1..], "    ");
      Assoc("    ", ds[0], "    " + Join(ds[1..], "    "));
      BlockAppend(recs, PreOrder(recs, c), PreOrderAll(recs, cs[1..], i));
    }
  }

  lemma NestedLine(recs: seq<OptionRecord>, name: string, more: string)
    ensures "    " + (Lead(name, true) + ", " + DescOf(recs, name) + "\n" + more) == Line(recs, name) + more
  {
  }

  /** `desc_string` of element `k` of a list is element `k` of the strings of the list. */
  lemma {:induction false} DescStringsAt(recs: seq<OptionRecord>, cs: seq<string>, i: int, nested: bool, k: nat)
    requires ChildrenLater(recs) && -1 <= i < |recs| && k < |cs|
    requires forall j :: 0 <= j < |cs| ==> cs[j] in Names(recs) && IndexOf(recs, cs[j]) > i
    ensures DescStrings(recs, cs, i, nested)[k] == DescString(recs, cs[k], nested)
  {
    ConsParts(DescString(recs, cs[0], nested), DescStrings(recs, cs[1..], i, nested));
    if k > 0 {
      DescStringsAt(recs, cs[1..], i, nested, k - 1);
    }
  }

  // ---------------------------------------------------------------------
  // generate_help_and_manpage_output

  /**
   * The manpage text: a bullet line with the command and its synopsis, the
   * command's description, a blank line, then the top-level options'
   * description strings joined by a line feed and four spaces, so that a
   * blank line separates each top-level option's group of lines.
   */
  function ManText(commandName: string, description: string, recs: seq<OptionRecord>, roots: seq<string>): string
    requires Renderable(recs, roots)
  {
    "  * " + Code(commandName) + " " + Synopsis(recs, roots) + ":\n    " + description + "\n\n    "
      + Join(DescStrings(recs, roots, -1, false), "\n    ")
  }

  /** The man text's first line names the command and gives the synopsis. */
  lemma ManTextHeader(commandName: string, description: string, recs: seq<OptionRecord>, roots: seq<string>)
    requires Renderable(recs, roots) && '\n' !in commandName
    ensures var header := "  * " + Code(commandName) + " " + Synopsis(recs, roots) + ":";
      Lines(ManText(commandName, description, recs, roots)) != [] &&
      Lines(ManText(commandName, description, recs, roots))[0] == header
  {
    var syn := Synopsis(recs, roots);
    var header := "  * " + Code(commandName) + " " + syn + ":";
    var rest := "    " + description + "\n\n    " + Join(DescStrings(recs, roots, -1, false), "\n    ");
    CollapseSpacesCollapsed(Join(OptionStrings(recs, roots, -1), " "));
    CollapsedNoNewline(syn);
    assert '\n' !in Code(commandName);
    assert '\n' !in header;
    assert ManText(commandName, description, recs, roots) == header + "\n" + rest;
    LinesFirst(header, rest);
  }

  /**
   * When no description contains a backtick, the man text holds, for each
   * top-level option in declaration order, its "If ... is passed" line and
   * one "With" line per descendant in pre-order.
   */
  lemma ManTextSections(recs: seq<OptionRecord>, roots: seq<string>, k: nat)
    requires ChildrenLater(recs) && DescsFree(recs, '`') && k < |roots|
    requires forall j :: 0 <= j < |roots| ==> roots[j] in Names(recs)
    ensures DescStrings(recs, roots, -1, false)[k] == DescLines(recs, roots[k], false)
  {
    DescStringsAt(recs, roots, -1, false, k);
    DescStringBlock(recs, roots[k], false);
  }

  /** The groups of the man text: each top-level option's lines, indented by four spaces. */
  function RootBlocks(recs: seq<OptionRecord>, roots: seq<string>): (r: seq<string>)
    requires Renderable(recs, roots)
    ensures |r| == |roots|
  {
    seq(|roots|, k requires 0 <= k < |roots| => "    " + DescLines(recs, roots[k], false))
  }

  /** The lines of options end in a line feed, when there are any. */
  lemma {:induction false} BlockEnd(recs: seq<OptionRecord>, names: seq<string>)
    ensures var b := Block(recs, names); b == [] || b[|b| - 1] == '\n'
  {
    if names != [] {
      BlockEnd(recs, names[1..]);
    }
  }

  /** An option's lines end in a line feed. */
  lemma DescLinesEnd(recs: seq<OptionRecord>, name: string, nested: bool)
    requires ChildrenLater(recs) && name in Names(recs)
    ensures var s := DescLines(recs, name, nested); s != [] && s[|s| - 1] == '\n'
  {
    BlockEnd(recs, PreOrder(recs, name)[1..]);
  }

  /**
   * When no description contains a backtick, the man text is the header
   * line, the description at four spaces, a blank line, and then the
   * top-level groups joined by line feeds. Every group ends in its own line
   * feed, so a blank line separates consecutive groups.
   */
  lemma ManTextLayout(commandName: string, description: string, recs: seq<OptionRecord>, roots: seq<string>)
    requires Renderable(recs, roots) && DescsFree(recs, '`')
    ensures roots != [] ==>
      ManText(commandName, description, recs, roots)
        == "  * " + Code(commandName) + " " + Synopsis(recs, roots) + ":\n"
           + "    " + description + "\n" + "\n" + Join(RootBlocks(recs, roots), "\n")
    ensures forall k :: 0 <= k < |roots| ==>
      var b := RootBlocks(recs, roots)[k]; b != [] && b[|b| - 1] == '\n'
  {
    var bs := RootBlocks(recs, roots);
    forall k | 0 <= k < |roots|
      ensures bs[k] != [] && bs[k][|bs[k]| - 1] == '\n'
    {
      DescLinesEnd(recs, roots[k], false);
    }
    if roots != [] {
      RootBlocksJoin(recs, roots);
      Regroup("  * " + Code(commandName) + " " + Synopsis(recs, roots), description,
        Join(DescStrings(recs, roots, -1, false), "\n    "), Join(bs, "\n"));
    }
  }

  /** The description strings joined as the man text joins them are the groups joined by line feeds. */
  lemma RootBlocksJoin(recs: seq<OptionRecord>, roots: seq<string>)
    requires Renderable(recs, roots) && DescsFree(recs, '`') && roots != []
    ensures "    " + Join(DescStrings(recs, roots, -1, false), "\n    ") == Join(RootBlocks(recs, roots), "\n")
  {
    var ds := DescStrings(recs, roots, -1, false);
    var bs := RootBlocks(recs, roots);
    forall k | 0 <= k < |roots|
      ensures bs[k] == "    " + ds[k]
    {
      ManTextSections(recs, roots, k);
    }
    JoinIndent(ds, bs, "    ");
    assert "\n" + "    " == "\n    ";
  }

  /** The man text's parts regrouped line by line. */
  lemma Regroup(head: string, d: string, j: string, jb: string)
    requires "    " + j == jb
    ensures head + ":\n    " + d + "\n\n    " + j == head + ":\n" + "    " + d + "\n" + "\n" + jb
  {
    assert head + ":\n    " + d + "\n\n    " + j == head + ":\n" + "    " + d + "\n" + "\n" + ("    " + j);
  }

  /** With single-line names and description, the man text's second line is the description at four spaces. */
  lemma ManTextDescription(commandName: string, description: string, recs: seq<OptionRecord>, roots: seq<string>)
    requires Renderable(recs, roots) && '\n' !in commandName && '\n' !in description
    ensures var ls := Lines(ManText(commandName, description, recs, roots));
      |ls| >= 2 && ls[1] == "    " + description
  {
    var syn := Synopsis(recs, roots);
    var header := "  * " + Code(commandName) + " " + syn + ":";
    var rest := "\n    " + Join(DescStrings(recs, roots, -1, false), "\n    ");
    CollapseSpacesCollapsed(Join(OptionStrings(recs, roots, -1), " "));
    CollapsedNoNewline(syn);
    assert '\n' !in Code(commandName);
    assert '\n' !in header;
    assert '\n' !in "    " + description;
    assert ManText(commandName, description, recs, roots) == header + "\n" + ("    " + description) + "\n" + rest;
    LinesSecond(header, "    " + description, rest);
  }

  /** `line.sub(/^  \* /, "#{Tty.bold}brew#{Tty.reset} ")` on a line without line feeds. */
  function Brew(line: string, tty: Tty): string {
    if "  * " <= line then tty.bold + "brew" + tty.reset + " " + line[4..] else line
  }

  /** The terminal restyling of one help line: the bullet, then backticks to bold, then angle brackets to underline. */
  function Restyle(line: string, tty: Tty): string {
    var b := WrapSpans(Brew(line, tty), '`', '`', tty.bold, tty.reset);
    WrapSpans(b, '<', '>', tty.underline, tty.reset)
  }

  /** `help_lines.map!`: every line restyled, in place. */
  function RestyleAll(lines: seq<string>, tty: Tty): (r: seq<string>)
    ensures |r| == |lines|
  {
    seq(|lines|, k requires 0 <= k < |lines| => Restyle(lines[k], tty))
  }

  /** `man.split("\n")`, restyled line by line and joined by line feeds. */
  function HelpText(man: string, tty: Tty): string {
    Join(RestyleAll(Lines(man), tty), "\n")
  }

  /** No terminal code contains `c`. */
  predicate TtyFree(tty: Tty, c: char) {
    c !in tty.bold && c !in tty.underline && c !in tty.reset
  }

  /** Restyling a line without line feeds adds none unless a terminal code has one. */
  lemma RestyleNoNewline(line: string, tty: Tty)
    requires '\n' !in line && TtyFree(tty, '\n')
    ensures '\n' !in Restyle(line, tty)
  {
    var b := Brew(line, tty);
    if "  * " <= line {
      assert forall x :: x in line[4..] ==> x in line;
      assert b == tty.bold + "brew" + tty.reset + " " + line[4..];
    }
    WrapSpansFree(b, '\n', '`', '`', tty.bold, tty.reset);
    WrapSpansFree(WrapSpans(b, '`', '`', tty.bold, tty.reset), '\n', '<', '>', tty.underline, tty.reset);
  }

  /**
   * The help text has one line for each line of the man text, and each is
   * that line restyled: restyling never adds or removes a line.
   */
  lemma HelpTextLines(man: string, tty: Tty)
    requires Lines(man) != [] && TtyFree(tty, '\n')
    ensures Split(HelpText(man, tty), '\n') == RestyleAll(Lines(man), tty)
  {
    var ls := Lines(man);
    var hs := RestyleAll(ls, tty);
    forall k | 0 <= k < |hs|
      ensures '\n' !in hs[k]
    {
      RestyleNoNewline(ls[k], tty);
    }
    SplitJoin(hs, '\n');
  }

  /** A line with no bullet, no backtick and no angle bracket is shown as it is. */
  lemma RestylePlain(line: string, tty: Tty)
    requires !("  * " <= line) && '`' !in line && '<' !in line
    ensures Restyle(line, tty) == line
  {
    WrapSpansPlain(line, '`', '`', tty.bold, tty.reset);
    WrapSpansPlain(line, '<', '>', tty.underline, tty.reset);
  }

  /**
   * The bullet becomes a bold "brew", and the first backticked text after it
   * (the command name) is shown in bold without its backticks.
   */
  lemma RestyleHeader(name: string, rest: string, tty: Tty)
    requires '`' !in name && TtyFree(tty, '`')
    ensures WrapSpans(Brew("  * " + Code(name) + rest, tty), '`', '`', tty.bold, tty.reset)
         == tty.bold + "brew" + tty.reset + " " + tty.bold + name + tty.reset + WrapSpans(rest, '`', '`', tty.bold, tty.reset)
  {
    var line := "  * " + Code(name) + rest;
    assert "  * " <= line && line[4..] == Code(name) + rest;
    var lead := tty.bold + "brew" + tty.reset + " ";
    assert '`' !in lead;
    assert Brew(line, tty) == lead + ['`'] + name + ['`'] + rest;
    WrapSpansSpan(lead, name, rest, '`', '`', tty.bold, tty.reset);
  }
}

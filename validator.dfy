// The option validator of `Homebrew::Command`: which `--` tokens of a
// command line name no declared option, and the error message built
// from them.

module Validator {
  import opened Wrappers
  import opened Text

  /**
   * Ruby's `/^--/ =~ tok`. `^` anchors at the start of the token and
   * after every newline in it, so a token whose second line starts with
   * `--` matches too.
   */
  predicate OptionLike(tok: string) {
    || (|tok| >= 2 && tok[0] == '-' && tok[1] == '-')
    || exists k :: 0 <= k < |tok| - 2 && tok[k] == '\n' && tok[k + 1] == '-' && tok[k + 2] == '-'
  }

  /** On a single-line token the match is the plain prefix test. */
  lemma SingleLineOptionLike(tok: string)
    requires '\n' !in tok
    ensures OptionLike(tok) <==> "--" <= tok
  {
    if |tok| >= 2 && tok[0] == '-' && tok[1] == '-' {
      assert tok[..2] == "--";
    }
  }

  /** `tok.split("=", 2)[0]`: the option name in front of an `=value`. */
  function FirstField(tok: string): string {
    Split(tok, '=')[0]
  }

  /** The first field is the longest `=`-free prefix of the token. */
  lemma {:induction false} FirstFieldShape(tok: string)
    ensures FirstField(tok) <= tok
    ensures '=' !in FirstField(tok)
    ensures |FirstField(tok)| < |tok| ==> tok[|FirstField(tok)|] == '='
  {
    if |tok| > 0 && tok[0] != '=' {
      FirstFieldShape(tok[1..]);
      assert FirstField(tok) == [tok[0]] + FirstField(tok[1..]);
    }
  }

  /** A token without `=` is its own first field. */
  lemma FirstFieldPlain(tok: string)
    requires '=' !in tok
    ensures FirstField(tok) == tok
  {
    FirstFieldShape(tok);
    assert forall k :: 0 <= k < |tok| ==> tok[k] != '=';
  }

  /** The `--` tokens of `argv`, each once, in first-occurrence order. */
  function OptionTokens(argv: seq<string>): seq<string> {
    Uniq(Filter(argv, OptionLike))
  }

  /**
   * `argv_invalid_options_passed`: the first fields of the distinct `--`
   * tokens whose first field is not among the declared `names`.
   */
  function InvalidOptionsPassed(names: seq<string>, argv: seq<string>): seq<string> {
    var rejected := RejectedTokens(names, argv);
    seq(|rejected|, i requires 0 <= i < |rejected| => FirstField(rejected[i]))
  }

  /** The distinct `--` tokens whose first field is undeclared, before the split. */
  function RejectedTokens(names: seq<string>, argv: seq<string>): seq<string> {
    Filter(OptionTokens(argv), t => FirstField(t) !in names)
  }

  /**
   * A name is reported exactly when it is undeclared and is the first
   * field of some `--` token of the command line.
   */
  lemma InvalidOptionsMembers(names: seq<string>, argv: seq<string>, x: string)
    ensures x in InvalidOptionsPassed(names, argv)
            <==> x !in names && exists t :: t in argv && OptionLike(t) && FirstField(t) == x
  {
    var rejected := RejectedTokens(names, argv);
    var r := InvalidOptionsPassed(names, argv);
    if x in r {
      var i :| 0 <= i < |r| && r[i] == x;
      assert rejected[i] in rejected;
    }
    if x !in names && exists t :: t in argv && OptionLike(t) && FirstField(t) == x {
      var t :| t in argv && OptionLike(t) && FirstField(t) == x;
      assert t in rejected;
      var i :| 0 <= i < |rejected| && rejected[i] == t;
      assert r[i] == x;
    }
  }

  /**
   * When no token carries an `=value`, the report is the undeclared `--`
   * tokens themselves, each once.
   */
  lemma InvalidOptionsNoValues(names: seq<string>, argv: seq<string>)
    requires forall t :: t in argv ==> '=' !in t
    ensures InvalidOptionsPassed(names, argv) == Filter(OptionTokens(argv), t => t !in names)
  {
    var options := OptionTokens(argv);
    PlainFilter(options, names);
    var rejected := Filter(options, t => FirstField(t) !in names);
    forall i | 0 <= i < |rejected|
      ensures FirstField(rejected[i]) == rejected[i]
    {
      assert rejected[i] in argv;
      FirstFieldPlain(rejected[i]);
    }
  }

  /**
   * When no token carries an `=value`, the report lists each undeclared
   * option once, in the order it first appears on the command line.
   */
  lemma InvalidOptionsPlain(names: seq<string>, argv: seq<string>)
    requires forall t :: t in argv ==> '=' !in t
    ensures InFirstOccurrenceOrder(InvalidOptionsPassed(names, argv), argv)
    ensures Distinct(InvalidOptionsPassed(names, argv))
  {
    InvalidOptionsNoValues(names, argv);
    var options := OptionTokens(argv);
    UniqFilter(argv, OptionLike);
    UniqOrder(argv);
    FilterOrder(Uniq(argv), OptionLike, argv);
    FilterOrder(options, t => t !in names, argv);
    OrderDistinct(InvalidOptionsPassed(names, argv), argv);
  }

  /**
   * On any command line the report is the first fields of a list of tokens
   * that holds exactly the undeclared `--` tokens, each once, in the order
   * they first appear. So a token repeated verbatim is reported once, and
   * two tokens that differ only after `=` report their name twice.
   */
  lemma InvalidOptionsOrder(names: seq<string>, argv: seq<string>)
    ensures var ts := RejectedTokens(names, argv);
            var r := InvalidOptionsPassed(names, argv);
            && |r| == |ts|
            && (forall i :: 0 <= i < |r| ==> r[i] == FirstField(ts[i]))
            && Distinct(ts)
            && InFirstOccurrenceOrder(ts, argv)
            && (forall t :: t in ts <==> t in argv && OptionLike(t) && FirstField(t) !in names)
  {
    var keep := (t: string) => FirstField(t) !in names;
    UniqFilter(argv, OptionLike);
    UniqOrder(argv);
    FilterOrder(Uniq(argv), OptionLike, argv);
    FilterOrder(OptionTokens(argv), keep, argv);
    OrderDistinct(RejectedTokens(names, argv), argv);
  }

  /** Removing repetitions from the command line first does not change the report. */
  lemma InvalidOptionsDedup(names: seq<string>, argv: seq<string>)
    ensures InvalidOptionsPassed(names, Uniq(argv)) == InvalidOptionsPassed(names, argv)
  {
    UniqFilter(argv, OptionLike);
    UniqUniq(Filter(argv, OptionLike));
    UniqFilter(Uniq(argv), OptionLike);
    assert OptionTokens(Uniq(argv)) == OptionTokens(argv);
  }

  /** On `=`-free tokens, rejecting by first field is rejecting by the token. */
  lemma {:induction false} PlainFilter(xs: seq<string>, names: seq<string>)
    requires forall t :: t in xs ==> '=' !in t
    ensures Filter(xs, t => FirstField(t) !in names) == Filter(xs, t => t !in names)
  {
    if xs != [] {
      var init := xs[..|xs| - 1];
      assert forall t :: t in init ==> t in xs;
      PlainFilter(init, names);
      FirstFieldPlain(xs[|xs| - 1]);
    }
  }

  /**
   * `uniq` runs on whole tokens, so two tokens with the same name and
   * different values report that name twice.
   */
  lemma RepeatedName(names: seq<string>, n: string, v: string, w: string)
    requires OptionLike(n) && '=' !in n && n !in names
    requires v != w
    ensures InvalidOptionsPassed(names, [n + "=" + v, n + "=" + w]) == [n, n]
  {
    var a, b := n + "=" + v, n + "=" + w;
    OptionLikeExtends(n, "=" + v);
    OptionLikeExtends(n, "=" + w);
    Assoc(n, "=", v);
    Assoc(n, "=", w);
    assert a[|n| + 1..] == v && b[|n| + 1..] == w;
    TwoOptionTokens(a, b);
    FirstFieldEq(n, v);
    FirstFieldEq(n, w);
    var keep := (t: string) => FirstField(t) !in names;
    KeepBoth(a, b, keep);
  }

  /** Two different `--` tokens are both kept, in order. */
  lemma TwoOptionTokens(a: string, b: string)
    requires OptionLike(a) && OptionLike(b) && a != b
    ensures OptionTokens([a, b]) == [a, b]
  {
    KeepBoth(a, b, OptionLike);
    UniqPair(a, b);
  }

  /** Text added after a `--` token leaves it one. */
  lemma OptionLikeExtends(n: string, rest: string)
    requires OptionLike(n)
    ensures OptionLike(n + rest)
  {
    var t := n + rest;
    if |n| >= 2 && n[0] == '-' && n[1] == '-' {
      assert t[0] == n[0] && t[1] == n[1];
    } else {
      var k :| 0 <= k < |n| - 2 && n[k] == '\n' && n[k + 1] == '-' && n[k + 2] == '-';
      assert t[k] == n[k] && t[k + 1] == n[k + 1] && t[k + 2] == n[k + 2];
    }
  }

  /** Selecting from two tokens that both pass keeps both. */
  lemma KeepBoth(a: string, b: string, keep: string -> bool)
    requires keep(a) && keep(b)
    ensures Filter([a, b], keep) == [a, b]
  {
    assert [a, b][..1] == [a] && [a][..0] == [];
    assert Filter([a], keep) == [] + [a];
  }

  /** Two different tokens are both kept by `uniq`. */
  lemma UniqPair(a: string, b: string)
    requires a != b
    ensures Uniq([a, b]) == [a, b]
  {
    assert [a, b][..1] == [a] && [a][..0] == [];
    assert Uniq([a]) == [] + [a];
  }

  /** The first field of `name=value` is `name` when `name` has no `=`. */
  lemma FirstFieldEq(name: string, value: string)
    requires '=' !in name
    ensures FirstField(name + "=" + value) == name
  {
    var s := name + "=" + value;
    FirstFieldShape(s);
    var f := FirstField(s);
    assert forall k :: 0 <= k < |name| ==> s[k] == name[k] && name[k] != '=';
    assert forall k :: 0 <= k < |f| ==> f[k] != '=';
    assert s[|name|] == '=';
    assert |f| == |name|;
    assert f == s[..|f|] == name;
  }

  /** `Formatter.pluralize`: the count, a space and the word, with an `s` unless the count is 1. */
  function Pluralize(n: nat, word: string): (r: string)
    ensures NatToString(n) <= r
  {
    NatToString(n) + " " + word + (if n == 1 then "" else "s")
  }

  /** The text in front of the list of invalid options. */
  function Header(n: nat): string {
    Pluralize(n, "invalid option") + " provided: "
  }

  /**
   * `get_error_message`: nothing when every `--` token names a declared
   * option, else the count, the names and a newline.
   */
  function ErrorMessage(names: seq<string>, argv: seq<string>): (r: Option<string>)
    ensures r.None? <==> InvalidOptionsPassed(names, argv) == []
    ensures r.Some? ==> Header(|InvalidOptionsPassed(names, argv)|) <= r.value
  {
    var invalid := InvalidOptionsPassed(names, argv);
    if invalid == [] then None
    else Some(Header(|invalid|) + Join(invalid, " ") + "\n")
  }

  /** The decimal digits at the front of `s`. */
  function LeadingDigits(s: string): (r: string)
    ensures r <= s
    ensures forall k :: 0 <= k < |r| ==> IsDigit(r[k])
  {
    if s != [] && IsDigit(s[0]) then [s[0]] + LeadingDigits(s[1..]) else []
  }

  lemma {:induction false} LeadingDigitsOf(d: string, rest: string)
    requires forall k :: 0 <= k < |d| ==> IsDigit(d[k])
    requires rest != [] && !IsDigit(rest[0])
    ensures LeadingDigits(d + rest) == d
  {
    if d != [] {
      assert (d + rest)[1..] == d[1..] + rest;
      LeadingDigitsOf(d[1..], rest);
    }
  }

  /**
   * The message reads back: its leading number is the count of invalid
   * options, and the text between the header and the final newline
   * splits at spaces into exactly the reported names.
   */
  lemma ErrorMessageReadBack(names: seq<string>, argv: seq<string>)
    requires ErrorMessage(names, argv).Some?
    requires forall x :: x in InvalidOptionsPassed(names, argv) ==> ' ' !in x
    ensures var m := ErrorMessage(names, argv).value;
            var n := |InvalidOptionsPassed(names, argv)|;
            && ParseNat(LeadingDigits(m)) == n
            && m[|m| - 1] == '\n'
            && Split(m[|Header(n)|..|m| - 1], ' ') == InvalidOptionsPassed(names, argv)
  {
    var invalid := InvalidOptionsPassed(names, argv);
    MessageLayout(|invalid|, Join(invalid, " "));
    assert forall k :: 0 <= k < |invalid| ==> invalid[k] in invalid;
    SplitJoin(invalid, ' ');
  }

  /** A header, a list and a line feed: the count leads, and the list sits between the header and the line feed. */
  lemma MessageLayout(n: nat, list: string)
    ensures var m := Header(n) + list + "\n";
            && ParseNat(LeadingDigits(m)) == n
            && m[|m| - 1] == '\n'
            && m[|Header(n)|..|m| - 1] == list
  {
    var m := Header(n) + list + "\n";
    var tail := " invalid option" + (if n == 1 then "" else "s") + " provided: ";
    assert Header(n) == NatToString(n) + tail;
    Assoc(NatToString(n), tail, list + "\n");
    Assoc(Header(n), list, "\n");
    LeadingDigitsOf(NatToString(n), tail + (list + "\n"));
    ParseNatToString(n);
  }

  // ---------------------------------------------------------------------
  // The error messages the command's tests expect

  /** A single undeclared `--` token is reported as it is. */
  lemma SingleInvalid(names: seq<string>, a: string)
    requires OptionLike(a) && '=' !in a && a !in names
    ensures InvalidOptionsPassed(names, [a]) == [a]
  {
    var r := InvalidOptionsPassed(names, [a]);
    forall x
      ensures x in r <==> x == a
    {
      InvalidOptionsMembers(names, [a], x);
      FirstFieldPlain(a);
    }
    InvalidOptionsPlain(names, [a]);
    SingleDetermined(r, a);
  }

  /**
   * Of `a b a c d`, with `c` and `d` declared, the report is `a b`: the
   * repeated `a` is reported once.
   */
  lemma RepeatedInvalid(names: seq<string>, a: string, b: string, c: string, d: string)
    requires OptionLike(a) && OptionLike(b)
    requires '=' !in a && '=' !in b && '=' !in c && '=' !in d
    requires a != b && a !in names && b !in names && c in names && d in names
    ensures InvalidOptionsPassed(names, [a, b, a, c, d]) == [a, b]
  {
    var argv := [a, b, a, c, d];
    var r := InvalidOptionsPassed(names, argv);
    forall x
      ensures x in r <==> x == a || x == b
    {
      InvalidOptionsMembers(names, argv, x);
      FirstFieldPlain(a);
      FirstFieldPlain(b);
      FirstFieldPlain(c);
      FirstFieldPlain(d);
    }
    InvalidOptionsPlain(names, argv);
    assert FirstIndex(argv, a) == 0;
    assert FirstIndex(argv, b) == 1;
    PairDetermined(r, argv, a, b);
  }

  /** When every `--` token names a declared option, nothing is reported. */
  lemma AllDeclared(names: seq<string>, argv: seq<string>)
    requires forall t :: t in argv && OptionLike(t) ==> FirstField(t) in names
    ensures InvalidOptionsPassed(names, argv) == []
  {
    if InvalidOptionsPassed(names, argv) != [] {
      var x := InvalidOptionsPassed(names, argv)[0];
      InvalidOptionsMembers(names, argv, x);
    }
  }

  lemma HeaderOne()
    ensures Header(1) == "1 invalid option provided: "
  {
    assert NatToString(1) == "1";
    assert Pluralize(1, "invalid option") == "1 invalid option";
  }

  lemma HeaderTwo()
    ensures Header(2) == "2 invalid options provided: "
  {
    assert NatToString(2) == "2";
    assert Pluralize(2, "invalid option") == "2 invalid options";
  }

  /** One undeclared option `a`: "1 invalid option provided: a". */
  lemma OneInvalidOption(names: seq<string>, a: string)
    requires OptionLike(a) && '=' !in a && a !in names
    ensures ErrorMessage(names, [a]) == Some("1 invalid option provided: " + a + "\n")
  {
    SingleInvalid(names, a);
    HeaderOne();
  }

  /**
   * Undeclared `a` and `b` among declared `c` and `d`, with `a` repeated:
   * "2 invalid options provided: a b".
   */
  lemma TwoInvalidOptions(names: seq<string>, a: string, b: string, c: string, d: string)
    requires OptionLike(a) && OptionLike(b)
    requires '=' !in a && '=' !in b && '=' !in c && '=' !in d
    requires a != b && a !in names && b !in names && c in names && d in names
    ensures ErrorMessage(names, [a, b, a, c, d]) == Some("2 invalid options provided: " + a + " " + b + "\n")
  {
    RepeatedInvalid(names, a, b, c, d);
    var h := "2 invalid options provided: ";
    HeaderTwo();
    assert Join([a, b], " ") == a + " " + b;
    Assoc(h, a + " ", b);
    Assoc(h, a, " ");
  }
}

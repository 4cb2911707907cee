/**
 * The Ruby string and array built-ins that the command helper relies on,
 * written out over `seq<char>`: `split`, `join`, `strip`, `uniq`, literal
 * `gsub`, `gsub(/\s+/, " ")`, `Integer#to_s`, and the lazy-span substitution
 * `gsub(/O(.*?)C/, pre + "\\1" + post)` that styles the help text.
 */
module Text {

  /** Ruby's `\s`: space, tab, line feed, vertical tab, form feed, carriage return. */
  predicate IsSpace(c: char) {
    c == ' ' || c == '\t' || c == '\n' || c == '\U{000B}' || c == '\U{000C}' || c == '\r'
  }

  predicate Distinct<T(==)>(xs: seq<T>) {
    forall i, j :: 0 <= i < j < |xs| ==> xs[i] != xs[j]
  }

  lemma Assoc<T>(a: seq<T>, b: seq<T>, c: seq<T>)
    ensures a + b + c == a + (b + c)
  {
  }

  lemma EmptyLeft<T>(xs: seq<T>)
    ensures [] + xs == xs
  {
  }

  lemma EmptyRight<T>(xs: seq<T>)
    ensures xs + [] == xs
  {
  }

  lemma ConsParts<T>(x: T, ys: seq<T>)
    ensures ([x] + ys)[0] == x && ([x] + ys)[1..] == ys
  {
  }

  lemma UpdateSplit<T>(xs: seq<T>, i: nat, x: T)
    requires i < |xs|
    ensures xs[i := x] == xs[..i] + [x] + xs[i + 1..]
  {
  }

  lemma PrefixHas<T>(a: seq<T>, b: seq<T>, x: T)
    requires a <= b && x in a
    ensures x in b
  {
    var k :| 0 <= k < |a| && a[k] == x;
    assert b[k] == x;
  }

  lemma InitLast<T>(xs: seq<T>)
    requires xs != []
    ensures xs[..|xs| - 1] + [xs[|xs| - 1]] == xs
  {
  }

  // ---------------------------------------------------------------------
  // Array#join and String#split

  /** `xs.join(sep)`. */
  function Join(xs: seq<string>, sep: string): string
  {
    if |xs| == 0 then "" else if |xs| == 1 then xs[0] else xs[0] + sep + Join(xs[1..], sep)
  }

  lemma JoinCons(x: string, xs: seq<string>, sep: string)
    requires xs != []
    ensures Join([x] + xs, sep) == x + sep + Join(xs, sep)
  {
    assert ([x] + xs)[1..] == xs;
  }

  /** The first element, the separator, and the join of the rest, followed by `rest`. */
  lemma JoinFront(xs: seq<string>, sep: string, rest: string)
    requires |xs| >= 2
    ensures Join(xs, sep) + rest == xs[0] + (sep + (Join(xs[1..], sep) + rest))
  {
  }

  /** Every field of `s` between occurrences of `c`, empty fields included. */
  function Split(s: string, c: char): (r: seq<string>)
    ensures |r| >= 1
    ensures forall k :: 0 <= k < |r| ==> c !in r[k]
  {
    if |s| == 0 then [""]
    else
      var rest := Split(s[1..], c);
      if s[0] == c then [""] + rest else [[s[0]] + rest[0]] + rest[1..]
  }

  /** Splitting at `c` and joining with `c` gives the string back. */
  lemma {:induction false} JoinSplit(s: string, c: char)
    ensures Join(Split(s, c), [c]) == s
  {
    if |s| > 0 {
      var rest := Split(s[1..], c);
      JoinSplit(s[1..], c);
      if s[0] == c {
        JoinCons("", rest, [c]);
        assert s == [c] + s[1..];
      } else {
        var head := [s[0]] + rest[0];
        if |rest| == 1 {
          assert Split(s, c) == [head];
          assert s == [s[0]] + s[1..];
        } else {
          JoinCons(head, rest[1..], [c]);
          JoinCons(rest[0], rest[1..], [c]);
          assert rest == [rest[0]] + rest[1..];
          assert s == [s[0]] + s[1..];
        }
      }
    }
  }

  /** Splitting `a + t` where `a` has no separator glues `a` onto the first field of `t`. */
  lemma {:induction false} SplitPrefix(a: string, t: string, c: char)
    requires c !in a
    ensures Split(a + t, c) == [a + Split(t, c)[0]] + Split(t, c)[1..]
  {
    if a != [] {
      var S := Split(t, c);
      assert (a + t)[0] == a[0] && a[0] != c;
      assert (a + t)[1..] == a[1..] + t;
      SplitPrefix(a[1..], t, c);
      var rest := Split(a[1..] + t, c);
      assert Split(a + t, c) == [[a[0]] + rest[0]] + rest[1..];
      assert [a[0]] + (a[1..] + S[0]) == a + S[0];
    } else {
      assert a + t == t;
      var S := Split(t, c);
      assert a + S[0] == S[0];
      assert S == [a + S[0]] + S[1..];
    }
  }

  /** Joining separator-free fields with `c` and splitting at `c` gives the fields back. */
  lemma {:induction false} SplitJoin(xs: seq<string>, c: char)
    requires |xs| >= 1
    requires forall k :: 0 <= k < |xs| ==> c !in xs[k]
    ensures Split(Join(xs, [c]), c) == xs
  {
    if |xs| == 1 {
      var x := xs[0];
      SplitPrefix(x, "", c);
      assert Split("", c) == [""];
      assert x + "" == x;
      assert Split(x, c) == [x];
      assert Join(xs, [c]) == x;
      assert xs == [x];
    } else {
      SplitJoin(xs[1..], c);
      var t := Join(xs[1..], [c]);
      assert Join(xs, [c]) == xs[0] + ([c] + t);
      SplitPrefix(xs[0], [c] + t, c);
      assert ([c] + t)[0] == c && ([c] + t)[1..] == t;
      assert Split([c] + t, c) == [""] + xs[1..];
      assert xs[0] + "" == xs[0];
      assert xs == [xs[0]] + xs[1..];
    }
  }

  /** The list with its trailing empty strings removed. */
  function DropTrailingEmpty(xs: seq<string>): (r: seq<string>)
    ensures |r| <= |xs| && r == xs[..|r|]
    ensures forall k :: |r| <= k < |xs| ==> xs[k] == ""
    ensures r == [] || r[|r| - 1] != ""
  {
    if xs != [] && xs[|xs| - 1] == "" then DropTrailingEmpty(xs[..|xs| - 1]) else xs
  }

  /** `s.split("\n")`: the fields between line feeds, trailing empty ones dropped. */
  function Lines(s: string): (r: seq<string>)
    ensures forall k :: 0 <= k < |r| ==> '\n' !in r[k]
  {
    DropTrailingEmpty(Split(s, '\n'))
  }

  /** Splitting at a separator that ends the first field: that field, then the fields of the rest. */
  lemma SplitField(a: string, rest: string, c: char)
    requires c !in a
    ensures Split(a + [c] + rest, c) == [a] + Split(rest, c)
  {
    var t := [c] + rest;
    SplitPrefix(a, t, c);
    assert t[0] == c && t[1..] == rest;
    assert Split(t, c) == [""] + Split(rest, c);
    assert a + "" == a;
    assert a + [c] + rest == a + t;
  }

  /** The second line of a text whose first two lines end in line feeds. */
  lemma LinesSecond(a: string, b: string, rest: string)
    requires '\n' !in a && '\n' !in b && b != []
    ensures var ls := Lines(a + "\n" + b + "\n" + rest);
      |ls| >= 2 && ls[1] == b
  {
    SplitField(b, rest, '\n');
    SplitField(a, b + "\n" + rest, '\n');
    assert a + "\n" + b + "\n" + rest == a + "\n" + (b + "\n" + rest);
    var xs := Split(a + "\n" + b + "\n" + rest, '\n');
    assert xs[1] == b;
  }

  /**
   * Prefixing every element with `ind` and joining with line feeds is
   * prefixing the join by `ind` and `ind` after each line feed.
   */
  lemma {:induction false} JoinIndent(xs: seq<string>, ys: seq<string>, ind: string)
    requires |xs| == |ys| >= 1
    requires forall k :: 0 <= k < |xs| ==> ys[k] == ind + xs[k]
    ensures ind + Join(xs, "\n" + ind) == Join(ys, "\n")
  {
    if |xs| > 1 {
      JoinIndent(xs[1..], ys[1..], ind);
      var j := Join(xs[1..], "\n" + ind);
      calc {
        ind + Join(xs, "\n" + ind);
        ind + (xs[0] + ("\n" + ind) + j);
        { Assoc(xs[0], "\n" + ind, j); Assoc("\n", ind, j); }
        ind + (xs[0] + ("\n" + (ind + j)));
        { Assoc(ind, xs[0], "\n" + (ind + j)); }
        ys[0] + ("\n" + Join(ys[1..], "\n"));
        { Assoc(ys[0], "\n", Join(ys[1..], "\n")); }
        Join(ys, "\n");
      }
    }
  }

  /** The first line of a text is what comes before its first line feed. */
  lemma LinesFirst(a: string, rest: string)
    requires a != [] && '\n' !in a
    ensures Lines(a + "\n" + rest) != [] && Lines(a + "\n" + rest)[0] == a
  {
    var t := "\n" + rest;
    SplitPrefix(a, t, '\n');
    assert t[0] == '\n' && t[1..] == rest;
    assert Split(t, '\n')[0] == "";
    assert a + "" == a;
    assert a + "\n" + rest == a + t;
    var xs := Split(a + t, '\n');
    var r := DropTrailingEmpty(xs);
    assert xs[0] == a && xs[0] != "";
  }

  // ---------------------------------------------------------------------
  // Literal String#gsub

  /** `pat` occurs somewhere in `s`. */
  predicate Occurs(pat: string, s: string)
    decreases |s|
  {
    pat <= s || (|s| > 0 && Occurs(pat, s[1..]))
  }

  /**
   * `s.gsub(pat, rep)` for a pattern matched literally: scanning from the left,
   * each occurrence of `pat` is replaced and the scan resumes after it.
   */
  function ReplaceAll(s: string, pat: string, rep: string): string
    requires pat != []
    decreases |s|
  {
    if |s| < |pat| then s
    else if pat <= s then rep + ReplaceAll(s[|pat|..], pat, rep)
    else [s[0]] + ReplaceAll(s[1..], pat, rep)
  }

  /** Replacing a pattern that does not occur leaves the string as it is. */
  lemma {:induction false} ReplaceAllAbsent(s: string, pat: string, rep: string)
    requires pat != [] && !Occurs(pat, s)
    ensures ReplaceAll(s, pat, rep) == s
  {
    if |s| >= |pat| {
      ReplaceAllAbsent(s[1..], pat, rep);
      assert s == [s[0]] + s[1..];
    }
  }

  /** A pattern that starts with `c` does not occur in a string without `c`. */
  lemma {:induction false} AbsentWithoutLead(s: string, pat: string)
    requires pat != [] && pat[0] !in s
    ensures !Occurs(pat, s)
  {
    if |s| > 0 {
      AbsentWithoutLead(s[1..], pat);
    }
  }

  /** A string that begins with the pattern, and has no other occurrence, has it replaced once. */
  lemma ReplaceAllLead(pat: string, rest: string, rep: string)
    requires pat != [] && pat[0] !in rest
    ensures ReplaceAll(pat + rest, pat, rep) == rep + rest
  {
    assert (pat + rest)[|pat|..] == rest;
    AbsentWithoutLead(rest, pat);
    ReplaceAllAbsent(rest, pat, rep);
  }

  // ---------------------------------------------------------------------
  // gsub(/\s+/, " ") and String#strip

  /** `s` with its leading whitespace removed (`lstrip`). */
  function SkipSpaces(s: string): (r: string)
    ensures |r| <= |s| && r == s[|s| - |r|..]
    ensures s != [] && IsSpace(s[0]) ==> |r| < |s|
    ensures r == [] || !IsSpace(r[0])
    ensures forall k :: 0 <= k < |s| - |r| ==> IsSpace(s[k])
  {
    if s != [] && IsSpace(s[0]) then SkipSpaces(s[1..]) else s
  }

  /** `s.gsub(/\s+/, " ")`: every run of whitespace becomes one space. */
  function CollapseSpaces(s: string): (r: string)
    ensures (r == []) == (s == [])
    ensures r != [] ==> (IsSpace(r[0]) <==> IsSpace(s[0]))
    decreases |s|
  {
    if s == [] then []
    else if IsSpace(s[0]) then " " + CollapseSpaces(SkipSpaces(s))
    else [s[0]] + CollapseSpaces(s[1..])
  }

  /** The only whitespace is single spaces. */
  predicate Collapsed(s: string) {
    forall k :: 0 <= k < |s| && IsSpace(s[k]) ==> s[k] == ' ' && (k + 1 == |s| || !IsSpace(s[k + 1]))
  }

  /** Putting a character in front keeps a string collapsed unless it starts a second space. */
  lemma CollapsedCons(c: char, r: string)
    requires Collapsed(r)
    requires IsSpace(c) ==> c == ' ' && (r == [] || !IsSpace(r[0]))
    ensures Collapsed([c] + r)
  {
    var s := [c] + r;
    forall k | 0 <= k < |s| && IsSpace(s[k])
      ensures s[k] == ' ' && (k + 1 == |s| || !IsSpace(s[k + 1]))
    {
      if k > 0 {
        assert s[k] == r[k - 1];
        assert k + 1 < |s| ==> s[k + 1] == r[k];
      }
    }
  }

  /** Gluing two collapsed strings keeps them collapsed unless two spaces meet. */
  lemma CollapsedConcat(a: string, b: string)
    requires Collapsed(a) && Collapsed(b)
    requires a == [] || b == [] || !IsSpace(a[|a| - 1]) || !IsSpace(b[0])
    ensures Collapsed(a + b)
  {
    var s := a + b;
    forall k | 0 <= k < |s| && IsSpace(s[k])
      ensures s[k] == ' ' && (k + 1 == |s| || !IsSpace(s[k + 1]))
    {
      if k < |a| {
        assert s[k] == a[k];
        if k + 1 < |a| {
          assert s[k + 1] == a[k + 1];
        } else if k + 1 < |s| {
          assert s[k + 1] == b[0];
        }
      } else {
        assert s[k] == b[k - |a|];
        assert k + 1 < |s| ==> s[k + 1] == b[k + 1 - |a|];
      }
    }
  }

  /** Collapsed, non-empty, and neither beginning nor ending with whitespace. */
  predicate Tight(s: string) {
    s != [] && !IsSpace(s[0]) && !IsSpace(s[|s| - 1]) && Collapsed(s)
  }

  /** Two tight strings with one space between them make a tight string. */
  lemma TightSpaced(a: string, b: string)
    requires Tight(a) && Tight(b)
    ensures Tight(a + " " + b)
  {
    CollapsedConcat(a, " ");
    CollapsedConcat(a + " ", b);
    assert (a + " " + b)[0] == a[0];
    assert (a + " " + b)[|a + " " + b| - 1] == b[|b| - 1];
  }

  /** A tight string between two non-space characters is tight. */
  lemma TightWrap(open: char, x: string, close: char)
    requires Tight(x) && !IsSpace(open) && !IsSpace(close)
    ensures Tight([open] + x + [close])
  {
    CollapsedCons(open, x);
    CollapsedConcat([open] + x, [close]);
  }

  /** A collapsed string has no line feed: its only whitespace is spaces. */
  lemma CollapsedNoNewline(s: string)
    requires Collapsed(s)
    ensures '\n' !in s
  {
    if '\n' in s {
      var k :| 0 <= k < |s| && s[k] == '\n';
      assert IsSpace(s[k]);
    }
  }

  /** Collapsing leaves only single spaces. */
  lemma {:induction false} CollapseSpacesCollapsed(s: string)
    ensures Collapsed(CollapseSpaces(s))
    decreases |s|
  {
    if s != [] {
      if IsSpace(s[0]) {
        var t := SkipSpaces(s);
        CollapseSpacesCollapsed(t);
        CollapsedCons(' ', CollapseSpaces(t));
      } else {
        CollapseSpacesCollapsed(s[1..]);
        CollapsedCons(s[0], CollapseSpaces(s[1..]));
      }
    }
  }

  /** A string that is already collapsed is left unchanged. */
  lemma {:induction false} CollapseSpacesFixed(s: string)
    requires Collapsed(s)
    ensures CollapseSpaces(s) == s
  {
    if s != [] {
      assert Collapsed(s[1..]) by {
        forall k | 0 <= k < |s[1..]| && IsSpace(s[1..][k])
          ensures s[1..][k] == ' ' && (k + 1 == |s[1..]| || !IsSpace(s[1..][k + 1]))
        {
          assert s[1..][k] == s[k + 1];
        }
      }
      CollapseSpacesFixed(s[1..]);
      if IsSpace(s[0]) {
        assert |s| == 1 || !IsSpace(s[1]);
        assert SkipSpaces(s) == s[1..];
      }
      assert s == [s[0]] + s[1..];
    }
  }

  /** Collapsing changes a string exactly when it is not already collapsed. */
  lemma CollapseSpacesExactly(s: string)
    ensures CollapseSpaces(s) == s <==> Collapsed(s)
  {
    if Collapsed(s) {
      CollapseSpacesFixed(s);
    } else {
      CollapseSpacesCollapsed(s);
    }
  }

  /** `s` with its trailing whitespace removed (`rstrip`). */
  function DropTrailingSpaces(s: string): (r: string)
    ensures |r| <= |s| && r == s[..|r|]
    ensures r == [] || !IsSpace(r[|r| - 1])
    ensures forall k :: |r| <= k < |s| ==> IsSpace(s[k])
  {
    if s != [] && IsSpace(s[|s| - 1]) then DropTrailingSpaces(s[..|s| - 1]) else s
  }

  /** `s.strip`. */
  function Strip(s: string): string
  {
    DropTrailingSpaces(SkipSpaces(s))
  }

  /** The stripped string neither begins nor ends with whitespace. */
  lemma StripBounds(s: string)
    ensures var r := Strip(s); r == [] || (!IsSpace(r[0]) && !IsSpace(r[|r| - 1]))
  {
    var t := SkipSpaces(s);
    var r := DropTrailingSpaces(t);
    if r != [] {
      assert r[0] == t[0];
    }
  }

  /** A string that neither begins nor ends with whitespace is its own `strip`. */
  lemma StripFixed(s: string)
    requires s == [] || (!IsSpace(s[0]) && !IsSpace(s[|s| - 1]))
    ensures Strip(s) == s
  {
    assert SkipSpaces(s) == s;
  }

  // ---------------------------------------------------------------------
  // Array#uniq and first occurrences

  /** `xs.uniq`: the first occurrence of each element, in order. */
  function Uniq(xs: seq<string>): (r: seq<string>)
    ensures forall x :: x in r <==> x in xs
    ensures Distinct(r)
  {
    if xs == [] then []
    else
      var u := Uniq(xs[..|xs| - 1]);
      var x := xs[|xs| - 1];
      if x in u then u else u + [x]
  }

  /** A list without repetitions is its own `uniq`. */
  lemma {:induction false} UniqDistinct(xs: seq<string>)
    requires Distinct(xs)
    ensures Uniq(xs) == xs
  {
    if xs != [] {
      var init := xs[..|xs| - 1];
      UniqDistinct(init);
      assert xs[|xs| - 1] !in init;
      assert xs == init + [xs[|xs| - 1]];
    }
  }

  /** `uniq` is idempotent. */
  lemma UniqUniq(xs: seq<string>)
    ensures Uniq(Uniq(xs)) == Uniq(xs)
  {
    UniqDistinct(Uniq(xs));
  }

  /** The position of the first occurrence of `x` in `xs`. */
  function FirstIndex<T(==)>(xs: seq<T>, x: T): (r: nat)
    requires x in xs
    ensures r < |xs| && xs[r] == x
    ensures forall k :: 0 <= k < r ==> xs[k] != x
  {
    if xs[0] == x then 0 else 1 + FirstIndex(xs[1..], x)
  }

  /** The elements of `r` occur in `xs`, in the order of their first occurrences there. */
  ghost predicate InFirstOccurrenceOrder<T>(r: seq<T>, xs: seq<T>) {
    && (forall i :: 0 <= i < |r| ==> r[i] in xs)
    && (forall i, j :: 0 <= i < j < |r| ==> FirstIndex(xs, r[i]) < FirstIndex(xs, r[j]))
  }

  lemma FirstIndexAppend<T>(xs: seq<T>, y: T, x: T)
    requires x in xs
    ensures FirstIndex(xs + [y], x) == FirstIndex(xs, x)
  {
    if xs[0] != x {
      assert (xs + [y])[1..] == xs[1..] + [y];
      FirstIndexAppend(xs[1..], y, x);
    }
  }

  /** `uniq` lists elements in the order of their first occurrences. */
  lemma {:induction false} UniqOrder(xs: seq<string>)
    ensures InFirstOccurrenceOrder(Uniq(xs), xs)
  {
    if xs != [] {
      var init := xs[..|xs| - 1];
      var x := xs[|xs| - 1];
      var u := Uniq(init);
      UniqOrder(init);
      assert xs == init + [x];
      forall y | y in init ensures FirstIndex(xs, y) == FirstIndex(init, y) {
        FirstIndexAppend(init, x, y);
      }
      if x !in u {
        assert FirstIndex(xs, x) == |init|;
        var r := u + [x];
        forall i, j | 0 <= i < j < |r| ensures FirstIndex(xs, r[i]) < FirstIndex(xs, r[j]) {
          if j < |u| {
            assert r[i] == u[i] && r[j] == u[j];
          } else {
            assert r[i] == u[i] && u[i] in init;
          }
        }
      }
    }
  }

  /** `xs.select { |x| keep(x) }`. */
  function Filter(xs: seq<string>, keep: string -> bool): (r: seq<string>)
    ensures forall x :: x in r <==> x in xs && keep(x)
    ensures |r| <= |xs|
  {
    if xs == [] then []
    else Filter(xs[..|xs| - 1], keep) + (if keep(xs[|xs| - 1]) then [xs[|xs| - 1]] else [])
  }

  /** Selecting from a list with one more element. */
  lemma FilterSnoc(xs: seq<string>, x: string, keep: string -> bool)
    ensures Filter(xs + [x], keep) == Filter(xs, keep) + (if keep(x) then [x] else [])
  {
    assert (xs + [x])[..|xs|] == xs;
  }

  /** Removing repetitions from a list with one more element. */
  lemma UniqSnoc(xs: seq<string>, x: string)
    ensures Uniq(xs + [x]) == if x in xs then Uniq(xs) else Uniq(xs) + [x]
  {
    assert (xs + [x])[..|xs|] == xs;
  }

  /** Elements listed in first-occurrence order are distinct. */
  lemma OrderDistinct<T>(r: seq<T>, ys: seq<T>)
    requires InFirstOccurrenceOrder(r, ys)
    ensures Distinct(r)
  {
    forall i, j | 0 <= i < j < |r|
      ensures r[i] != r[j]
    {
      assert FirstIndex(ys, r[i]) < FirstIndex(ys, r[j]);
    }
  }

  /** In a list without repetitions, equal elements sit at one index. */
  lemma DistinctIndex<T>(r: seq<T>, i: int, j: int)
    requires Distinct(r)
    requires 0 <= i < |r| && 0 <= j < |r| && r[i] == r[j]
    ensures i == j
  {
  }

  /** A list without repetitions holding exactly `a` is `[a]`. */
  lemma SingleDetermined(r: seq<string>, a: string)
    requires Distinct(r)
    requires forall x :: x in r <==> x == a
    ensures r == [a]
  {
    assert a in r;
    var ia :| 0 <= ia < |r| && r[ia] == a;
    forall j | 0 <= j < |r| && r[j] in r
      ensures j == ia
    {
      DistinctIndex(r, j, ia);
    }
    assert r[0] in r && r[|r| - 1] in r;
    assert 0 == ia && |r| - 1 == ia;
  }

  /**
   * A list in first-occurrence order of `ys` holding exactly `a` and `b`,
   * where `a` comes first in `ys`, is `[a, b]`.
   */
  lemma PairDetermined(r: seq<string>, ys: seq<string>, a: string, b: string)
    requires InFirstOccurrenceOrder(r, ys)
    requires forall x :: x in r <==> x == a || x == b
    requires a in ys && b in ys
    requires a != b && FirstIndex(ys, a) < FirstIndex(ys, b)
    ensures r == [a, b]
  {
    OrderDistinct(r, ys);
    assert a in r && b in r;
    var ia :| 0 <= ia < |r| && r[ia] == a;
    var ib :| 0 <= ib < |r| && r[ib] == b;
    forall j | 0 <= j < |r| && r[j] in r
      ensures j == ia || j == ib
    {
      if r[j] == a {
        DistinctIndex(r, j, ia);
      } else {
        DistinctIndex(r, j, ib);
      }
    }
    assert ia != ib;
    assert r[0] in r && r[1] in r && r[|r| - 1] in r;
    assert 0 == ia || 0 == ib;
    assert 1 == ia || 1 == ib;
    assert |r| - 1 == ia || |r| - 1 == ib;
    assert |r| == 2;
    assert FirstIndex(ys, r[0]) < FirstIndex(ys, r[1]);
  }

  /** Selecting keeps the order of first occurrences. */
  lemma {:induction false} FilterOrder(xs: seq<string>, keep: string -> bool, ys: seq<string>)
    requires InFirstOccurrenceOrder(xs, ys)
    ensures InFirstOccurrenceOrder(Filter(xs, keep), ys)
  {
    if xs != [] {
      var init := xs[..|xs| - 1];
      var x := xs[|xs| - 1];
      assert forall i :: 0 <= i < |init| ==> init[i] == xs[i];
      FilterOrder(init, keep, ys);
      if keep(x) {
        var u := Filter(init, keep);
        var r := u + [x];
        forall i, j | 0 <= i < j < |r|
          ensures FirstIndex(ys, r[i]) < FirstIndex(ys, r[j])
        {
          if j < |u| {
            assert r[i] == u[i] && r[j] == u[j];
          } else {
            assert r[i] == u[i] && u[i] in init;
            var m :| 0 <= m < |init| && init[m] == u[i];
            assert xs[m] == r[i] && xs[|xs| - 1] == r[j];
          }
        }
      }
    }
  }

  /** Selecting and removing repetitions can be done in either order. */
  lemma {:induction false} UniqFilter(xs: seq<string>, keep: string -> bool)
    ensures Uniq(Filter(xs, keep)) == Filter(Uniq(xs), keep)
  {
    if xs != [] {
      var init := xs[..|xs| - 1];
      var x := xs[|xs| - 1];
      UniqFilter(init, keep);
      var f := Filter(init, keep);
      if keep(x) {
        var g := f + [x];
        assert g[..|g| - 1] == f;
      } else {
        assert Filter(xs, keep) == f + [];
        EmptyRight(f);
        if x !in Uniq(init) {
          assert Filter(Uniq(init) + [x], keep) == Filter(Uniq(init), keep) + [] by {
            var v := Uniq(init) + [x];
            assert v[..|v| - 1] == Uniq(init);
          }
          EmptyRight(Filter(Uniq(init), keep));
        }
      }
    }
  }

  // ---------------------------------------------------------------------
  // Integer#to_s

  predicate IsDigit(c: char) {
    48 <= c as int <= 57
  }

  function Digit(d: nat): (c: char)
    requires d < 10
    ensures IsDigit(c)
  {
    (48 + d) as char
  }

  /** The decimal text of `n`, without leading zeros. */
  function NatToString(n: nat): (r: string)
    ensures |r| >= 1 && forall k :: 0 <= k < |r| ==> IsDigit(r[k])
    ensures n > 0 ==> r[0] != '0'
  {
    if n < 10 then [Digit(n)] else NatToString(n / 10) + [Digit(n % 10)]
  }

  /** The number a string of decimal digits denotes. */
  function ParseNat(s: string): nat
    requires forall k :: 0 <= k < |s| ==> IsDigit(s[k])
  {
    if s == [] then 0
    else
      var last := s[|s| - 1];
      assert IsDigit(last);
      ParseNat(s[..|s| - 1]) * 10 + (last as int - 48)
  }

  /** Reading back the decimal text gives the number. */
  lemma {:induction false} ParseNatToString(n: nat)
    ensures ParseNat(NatToString(n)) == n
  {
    if n >= 10 {
      ParseNatToString(n / 10);
      var s := NatToString(n);
      assert s[..|s| - 1] == NatToString(n / 10);
    }
  }

  // ---------------------------------------------------------------------
  // Lazy-span substitution and extraction

  /**
   * `s.gsub(/O(.*?)C/, pre + "\\1" + post)` on a string of one line: each
   * `open`, together with the nearest `close` after it, is replaced by `pre`,
   * the text between them, and `post`; an `open` with no `close` after it
   * stays as it is, and so does the rest of the line.
   */
  function WrapSpans(s: string, open: char, close: char, pre: string, post: string): string
    decreases |s|
  {
    if s == [] then []
    else if s[0] == open then WrapSpan(s[1..], [], open, close, pre, post)
    else [s[0]] + WrapSpans(s[1..], open, close, pre, post)
  }

  /** The rest of the line after an `open` whose span text so far is `acc`. */
  function WrapSpan(s: string, acc: string, open: char, close: char, pre: string, post: string): string
    decreases |s|
  {
    if s == [] then [open] + acc
    else if s[0] == close then pre + acc + post + WrapSpans(s[1..], open, close, pre, post)
    else WrapSpan(s[1..], acc + [s[0]], open, close, pre, post)
  }

  /** Text without the opening delimiter is copied as it is. */
  lemma {:induction false} WrapSpansSkip(p: string, s: string, open: char, close: char, pre: string, post: string)
    requires open !in p
    ensures WrapSpans(p + s, open, close, pre, post) == p + WrapSpans(s, open, close, pre, post)
  {
    if p == [] {
      assert p + s == s;
    } else {
      assert p[0] in p;
      assert (p + s)[0] == p[0] && (p + s)[1..] == p[1..] + s;
      WrapSpansSkip(p[1..], s, open, close, pre, post);
    }
  }

  /** A line without the opening delimiter is left unchanged. */
  lemma WrapSpansPlain(s: string, open: char, close: char, pre: string, post: string)
    requires open !in s
    ensures WrapSpans(s, open, close, pre, post) == s
  {
    WrapSpansSkip(s, [], open, close, pre, post);
    assert s + [] == s;
  }

  /** Inside a span, the text up to the nearest `close` is wrapped. */
  lemma {:induction false} WrapSpanClose(x: string, b: string, acc: string, open: char, close: char, pre: string, post: string)
    requires close !in x
    ensures WrapSpan(x + [close] + b, acc, open, close, pre, post)
         == pre + acc + x + post + WrapSpans(b, open, close, pre, post)
  {
    var s := x + [close] + b;
    if x == [] {
      assert s[0] == close && s[1..] == b;
    } else {
      assert x[0] in x;
      assert s[0] == x[0] && s[1..] == x[1..] + [close] + b;
      WrapSpanClose(x[1..], b, acc + [x[0]], open, close, pre, post);
      assert acc + [x[0]] + x[1..] == acc + x;
    }
  }

  /** The first delimited span is restyled and the scan goes on after it. */
  lemma WrapSpansSpan(a: string, x: string, b: string, open: char, close: char, pre: string, post: string)
    requires open !in a && close !in x
    ensures WrapSpans(a + [open] + x + [close] + b, open, close, pre, post)
         == a + pre + x + post + WrapSpans(b, open, close, pre, post)
  {
    var t := [open] + x + [close] + b;
    assert a + [open] + x + [close] + b == a + t;
    WrapSpansSkip(a, t, open, close, pre, post);
    assert t[0] == open && t[1..] == x + [close] + b;
    WrapSpanClose(x, b, [], open, close, pre, post);
    assert pre + [] + x == pre + x;
  }

  /** Restyling adds no character that is neither in the line nor in the inserted text. */
  lemma {:induction false} WrapSpansFree(s: string, c: char, open: char, close: char, pre: string, post: string)
    requires c !in s && c !in pre && c !in post
    ensures c !in WrapSpans(s, open, close, pre, post)
    decreases |s|, 1
  {
    if s != [] {
      assert s[0] in s;
      if s[0] == open {
        WrapSpanFree(s[1..], [], c, open, close, pre, post);
      } else {
        WrapSpansFree(s[1..], c, open, close, pre, post);
      }
    }
  }

  lemma {:induction false} WrapSpanFree(s: string, acc: string, c: char, open: char, close: char, pre: string, post: string)
    requires c !in s && c !in acc && c != open && c !in pre && c !in post
    ensures c !in WrapSpan(s, acc, open, close, pre, post)
    decreases |s|, 0
  {
    if s != [] {
      assert s[0] in s;
      if s[0] == close {
        WrapSpansFree(s[1..], c, open, close, pre, post);
      } else {
        WrapSpanFree(s[1..], acc + [s[0]], c, open, close, pre, post);
      }
    }
  }

  /** The texts between each `open` and the nearest `close` after it, in order. */
  function Spans(s: string, open: char, close: char): seq<string>
    decreases |s|
  {
    if s == [] then []
    else if s[0] == open then SpanText(s[1..], [], open, close)
    else Spans(s[1..], open, close)
  }

  /** The spans of the rest of the line after an `open` whose span text so far is `acc`. */
  function SpanText(s: string, acc: string, open: char, close: char): seq<string>
    decreases |s|
  {
    if s == [] then []
    else if s[0] == close then [acc] + Spans(s[1..], open, close)
    else SpanText(s[1..], acc + [s[0]], open, close)
  }

  /** Text without the opening delimiter in front of a string adds no span. */
  lemma {:induction false} SpansSkip(p: string, s: string, open: char, close: char)
    requires open !in p
    ensures Spans(p + s, open, close) == Spans(s, open, close)
  {
    if p == [] {
      assert p + s == s;
    } else {
      assert p[0] in p;
      assert (p + s)[0] == p[0] && (p + s)[1..] == p[1..] + s;
      SpansSkip(p[1..], s, open, close);
    }
  }

  lemma {:induction false} SpanTextClose(x: string, b: string, acc: string, open: char, close: char)
    requires close !in x
    ensures SpanText(x + [close] + b, acc, open, close) == [acc + x] + Spans(b, open, close)
  {
    var s := x + [close] + b;
    if x == [] {
      assert s[0] == close && s[1..] == b;
      assert acc + x == acc;
    } else {
      assert x[0] in x;
      assert s[0] == x[0] && s[1..] == x[1..] + [close] + b;
      SpanTextClose(x[1..], b, acc + [x[0]], open, close);
      assert acc + [x[0]] + x[1..] == acc + x;
    }
  }

  /** A delimited span at the front is the first span. */
  lemma SpansSpan(x: string, b: string, open: char, close: char)
    requires close !in x
    ensures Spans([open] + x + [close] + b, open, close) == [x] + Spans(b, open, close)
  {
    var s := [open] + x + [close] + b;
    assert s[0] == open && s[1..] == x + [close] + b;
    SpanTextClose(x, b, [], open, close);
    assert [] + x == x;
  }

  // ---------------------------------------------------------------------
  // Bracket depth

  /**
   * The nesting depth after reading `s` from depth `d`, counting `open` as one
   * level in and `close` as one level out; -1 once a `close` has no partner.
   */
  function Depth(s: string, d: nat, open: char, close: char): int
    decreases |s|
  {
    if s == [] then d
    else if s[0] == open then Depth(s[1..], d + 1, open, close)
    else if s[0] == close then (if d == 0 then -1 else Depth(s[1..], d - 1, open, close))
    else Depth(s[1..], d, open, close)
  }

  /** Text without brackets leaves the depth as it is. */
  lemma {:induction false} DepthSkip(p: string, s: string, d: nat, open: char, close: char)
    requires open !in p && close !in p
    ensures Depth(p + s, d, open, close) == Depth(s, d, open, close)
  {
    if p != [] {
      assert p[0] in p;
      assert (p + s)[0] == p[0];
      assert (p + s)[1..] == p[1..] + s;
      DepthSkip(p[1..], s, d, open, close);
    } else {
      assert p + s == s;
    }
  }
}

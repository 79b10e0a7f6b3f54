/**
 * Slash-separated paths as Go's `path` package treats them: `path.Join`
 * glues its non-empty elements with '/' and hands the result to
 * `path.Clean`, which (1) collapses repeated slashes, (2) drops `.`
 * elements, (3) drops each inner `..` with the element before it,
 * (4) drops `..` at the start of a rooted path, and returns "." for
 * an empty result. Clean is modelled element by element: split at '/',
 * resolve the elements on a stack, and put the path back together.
 */
module Paths {
  /** `strings.Split(s, "/")`: the pieces between separators (one more than there are separators). */
  function Split(s: string): (parts: seq<string>)
    ensures |parts| > 0
    ensures forall i :: 0 <= i < |parts| ==> '/' !in parts[i]
    decreases |s|
  {
    if s == "" then [""]
    else
      var rest := Split(s[1..]);
      if s[0] == '/' then [""] + rest
      else [[s[0]] + rest[0]] + rest[1..]
  }

  /** `strings.Join(parts, "/")`. */
  function JoinSep(parts: seq<string>): string
    decreases |parts|
  {
    if |parts| == 0 then ""
    else if |parts| == 1 then parts[0]
    else parts[0] + "/" + JoinSep(parts[1..])
  }

  /** The last element of a path: the part after its last '/'. */
  function LastPart(p: string): (last: string)
    ensures '/' !in last
  {
    var parts := Split(p);
    parts[|parts| - 1]
  }

  /** An ordinary element: one that Clean keeps as it is. */
  predicate IsName(e: string) {
    e != "" && e != "." && e != ".." && '/' !in e
  }

  predicate AllNames(es: seq<string>) {
    forall i :: 0 <= i < |es| ==> IsName(es[i])
  }

  predicate Rooted(p: string) {
    |p| > 0 && p[0] == '/'
  }

  /** How Clean treats one element, given the elements kept so far. */
  function Step(rooted: bool, kept: seq<string>, e: string): seq<string> {
    if e == "" || e == "." then kept
    else if e == ".." then
      if |kept| > 0 && kept[|kept| - 1] != ".." then kept[..|kept| - 1]
      else if rooted then kept
      else kept + [".."]
    else kept + [e]
  }

  function Resolve(rooted: bool, kept: seq<string>, es: seq<string>): seq<string>
    decreases |es|
  {
    if es == [] then kept else Resolve(rooted, Step(rooted, kept, es[0]), es[1..])
  }

  /** `path.Clean`: never empty, since an empty result becomes ".". */
  function Clean(p: string): (c: string)
    ensures c != ""
  {
    var rooted := Rooted(p);
    var kept := Resolve(rooted, [], Split(p));
    if rooted then "/" + JoinSep(kept)
    else if kept == [] then "."
    else
      ResolveKeepsNoEmpty(rooted, [], Split(p));
      JoinSep(kept)
  }

  /** The buffer `path.Join` builds: an element is appended after a '/' once the buffer is non-empty. */
  function Glue(buf: string, elems: seq<string>): string
    decreases |elems|
  {
    if elems == [] then buf
    else Glue(if buf != "" then buf + "/" + elems[0] else elems[0], elems[1..])
  }

  /** `path.Join`: "" when every element is empty, otherwise the cleaned glued elements. */
  function Join(elems: seq<string>): (p: string)
    ensures (forall i :: 0 <= i < |elems| ==> elems[i] == "") <==> p == ""
  {
    if forall i :: 0 <= i < |elems| ==> elems[i] == "" then ""
    else Clean(Glue("", elems))
  }

  /** Clean never keeps an empty element. */
  lemma {:induction false} ResolveKeepsNoEmpty(rooted: bool, kept: seq<string>, es: seq<string>)
    requires forall i :: 0 <= i < |kept| ==> kept[i] != ""
    ensures forall i :: 0 <= i < |Resolve(rooted, kept, es)| ==> Resolve(rooted, kept, es)[i] != ""
    decreases |es|
  {
    if es != [] {
      ResolveKeepsNoEmpty(rooted, Step(rooted, kept, es[0]), es[1..]);
    }
  }

  // ---------------------------------------------------------------------
  // Split and JoinSep are inverse to each other.

  lemma {:induction false} JoinSepSplit(s: string)
    ensures JoinSep(Split(s)) == s
    decreases |s|
  {
    if s != "" {
      var rest := Split(s[1..]);
      JoinSepSplit(s[1..]);
      if s[0] != '/' && |rest| > 1 {
        assert JoinSep(rest) == rest[0] + "/" + JoinSep(rest[1..]);
        assert ([s[0]] + rest[0]) + "/" + JoinSep(rest[1..]) == [s[0]] + JoinSep(rest);
      }
      assert s == [s[0]] + s[1..];
    }
  }

  lemma {:induction false} SplitName(s: string)
    requires '/' !in s
    ensures Split(s) == [s]
    decreases |s|
  {
    if s != "" {
      SplitName(s[1..]);
      assert s == [s[0]] + s[1..];
    }
  }

  lemma {:induction false} SplitAtSeparator(a: string, b: string)
    ensures Split(a + "/" + b) == Split(a) + Split(b)
    decreases |a|
  {
    if a == "" {
      assert a + "/" + b == "/" + b;
      assert ("/" + b)[1..] == b;
    } else {
      assert (a + "/" + b)[0] == a[0];
      assert (a + "/" + b)[1..] == a[1..] + "/" + b;
      SplitAtSeparator(a[1..], b);
    }
  }

  lemma {:induction false} SplitJoinSep(parts: seq<string>)
    requires |parts| > 0
    requires forall i :: 0 <= i < |parts| ==> '/' !in parts[i]
    ensures Split(JoinSep(parts)) == parts
    decreases |parts|
  {
    if |parts| == 1 {
      SplitName(parts[0]);
    } else {
      SplitAtSeparator(parts[0], JoinSep(parts[1..]));
      SplitName(parts[0]);
      SplitJoinSep(parts[1..]);
      assert parts == [parts[0]] + parts[1..];
    }
  }

  lemma {:induction false} JoinSepAppend(xs: seq<string>, ys: seq<string>)
    requires |xs| > 0 && |ys| > 0
    ensures JoinSep(xs + ys) == JoinSep(xs) + "/" + JoinSep(ys)
    decreases |xs|
  {
    if |xs| == 1 {
      assert (xs + ys)[1..] == ys;
    } else {
      assert (xs + ys)[1..] == xs[1..] + ys;
      JoinSepAppend(xs[1..], ys);
    }
  }

  // ---------------------------------------------------------------------
  // How Resolve treats sequences of elements.

  lemma {:induction false} ResolveAppend(rooted: bool, kept: seq<string>, xs: seq<string>, ys: seq<string>)
    ensures Resolve(rooted, kept, xs + ys) == Resolve(rooted, Resolve(rooted, kept, xs), ys)
    decreases |xs|
  {
    if xs == [] {
      assert xs + ys == ys;
    } else {
      assert (xs + ys)[0] == xs[0];
      assert (xs + ys)[1..] == xs[1..] + ys;
      ResolveAppend(rooted, Step(rooted, kept, xs[0]), xs[1..], ys);
    }
  }

  /** Ordinary elements are kept as they are, in order. */
  lemma {:induction false} ResolveNames(rooted: bool, kept: seq<string>, xs: seq<string>)
    requires AllNames(xs)
    ensures Resolve(rooted, kept, xs) == kept + xs
    decreases |xs|
  {
    if xs != [] {
      ResolveNames(rooted, kept + [xs[0]], xs[1..]);
      assert kept + [xs[0]] + xs[1..] == kept + xs;
    }
  }

  // ---------------------------------------------------------------------
  // What Clean does to the paths the key encoding produces.

  /** A rooted path made of ordinary elements is already clean. */
  lemma CleanRootedNames(xs: seq<string>)
    requires |xs| > 0 && AllNames(xs)
    ensures Clean("/" + JoinSep(xs)) == "/" + JoinSep(xs)
    ensures Split(Clean("/" + JoinSep(xs))) == [""] + xs
  {
    var p := "/" + JoinSep(xs);
    RootedSplit(xs);
    assert Split(p) == [""] + xs;
    ResolveAppend(true, [], [""], xs);
    assert Resolve(true, [], [""]) == [];
    ResolveNames(true, [], xs);
    assert Resolve(true, [], Split(p)) == xs;
    assert Clean(p) == "/" + JoinSep(xs);
  }

  lemma RootedSplit(xs: seq<string>)
    requires |xs| > 0 && AllNames(xs)
    ensures Rooted("/" + JoinSep(xs))
    ensures Split("/" + JoinSep(xs)) == [""] + xs
  {
    assert forall i :: 0 <= i < |xs| ==> '/' !in xs[i] by {
      forall i | 0 <= i < |xs|
        ensures '/' !in xs[i]
      {
        assert IsName(xs[i]);
      }
    }
    SplitRooted(xs);
  }

  /** A rooted path of slash-free pieces splits into an empty piece followed by those pieces. */
  lemma SplitRooted(xs: seq<string>)
    requires |xs| > 0 && forall i :: 0 <= i < |xs| ==> '/' !in xs[i]
    ensures Rooted("/" + JoinSep(xs))
    ensures Split("/" + JoinSep(xs)) == [""] + xs
  {
    var j := JoinSep(xs);
    assert ("/" + j)[0] == '/';
    assert "/" + j == "" + "/" + j;
    SplitAtSeparator("", j);
    assert Split("") == [""];
    SplitJoinSep(xs);
  }

  /** A relative path of slash-free pieces, the first non-empty, splits into those pieces and is not rooted. */
  lemma SplitRelative(xs: seq<string>)
    requires |xs| > 0 && xs[0] != "" && forall i :: 0 <= i < |xs| ==> '/' !in xs[i]
    ensures !Rooted(JoinSep(xs))
    ensures Split(JoinSep(xs)) == xs
  {
    JoinSepHead(xs);
    assert xs[0][0] in xs[0];
    SplitJoinSep(xs);
  }

  /** Whatever precedes it, an ordinary final element is the last element of the cleaned path. */
  lemma CleanKeepsLastName(q: string, a: string)
    requires IsName(a)
    ensures LastPart(Clean(q + "/" + a)) == a
  {
    var p := q + "/" + a;
    var rooted := Rooted(p);
    SplitAtSeparator(q, a);
    SplitName(a);
    var kept := Resolve(rooted, [], Split(q));
    ResolveAppend(rooted, [], Split(q), [a]);
    assert Resolve(rooted, kept, [a]) == kept + [a];
    LastPartJoinSep(kept, a);
  }

  lemma CleanName(a: string)
    requires IsName(a)
    ensures Clean(a) == a
  {
    SplitName(a);
    assert Resolve(false, [], [a]) == [a];
  }

  lemma LastPartJoinSep(kept: seq<string>, a: string)
    requires '/' !in a
    ensures LastPart(JoinSep(kept + [a])) == a
    ensures LastPart("/" + JoinSep(kept + [a])) == a
  {
    var j := JoinSep(kept + [a]);
    SplitName(a);
    if kept == [] {
      assert kept + [a] == [a];
    } else {
      JoinSepAppend(kept, [a]);
      SplitAtSeparator(JoinSep(kept), a);
    }
    assert Split(j)[|Split(j)| - 1] == a;
    assert "/" + j == "" + "/" + j;
    SplitAtSeparator("", j);
  }

  // ---------------------------------------------------------------------
  // Clean is idempotent: what it keeps is ordinary elements, preceded (in
  // a relative path only) by a run of "..".

  ghost predicate Canonical(rooted: bool, kept: seq<string>) {
    && (forall i :: 0 <= i < |kept| ==> IsName(kept[i]) || kept[i] == "..")
    && (forall i, j :: 0 <= i < j < |kept| && kept[j] == ".." ==> kept[i] == "..")
    && (rooted ==> forall i :: 0 <= i < |kept| ==> kept[i] != "..")
  }

  lemma StepCanonical(rooted: bool, kept: seq<string>, e: string)
    requires Canonical(rooted, kept) && '/' !in e
    ensures Canonical(rooted, Step(rooted, kept, e))
  {
    if e == ".." && !(|kept| > 0 && kept[|kept| - 1] != "..") && !rooted {
      var next := kept + [".."];
      forall i, j | 0 <= i < j < |next| && next[j] == ".."
        ensures next[i] == ".."
      {
        if j == |kept| && i < |kept| - 1 {
          assert kept[|kept| - 1] == "..";
        }
      }
    }
  }

  lemma {:induction false} ResolveCanonical(rooted: bool, kept: seq<string>, es: seq<string>)
    requires Canonical(rooted, kept)
    requires forall i :: 0 <= i < |es| ==> '/' !in es[i]
    ensures Canonical(rooted, Resolve(rooted, kept, es))
    decreases |es|
  {
    if es != [] {
      StepCanonical(rooted, kept, es[0]);
      ResolveCanonical(rooted, Step(rooted, kept, es[0]), es[1..]);
    }
  }

  /** Resolving what Clean kept gives it back unchanged. */
  lemma {:induction false} ResolveCanonicalFrom(rooted: bool, kept: seq<string>, i: nat)
    requires Canonical(rooted, kept) && i <= |kept|
    ensures Resolve(rooted, kept[..i], kept[i..]) == kept
    decreases |kept| - i
  {
    if i == |kept| {
      assert kept[..i] == kept;
    } else {
      assert kept[i..][0] == kept[i] && kept[i..][1..] == kept[i + 1..];
      if kept[i] == ".." {
        assert i > 0 ==> kept[..i][i - 1] == "..";
      }
      assert Step(rooted, kept[..i], kept[i]) == kept[..i + 1];
      ResolveCanonicalFrom(rooted, kept, i + 1);
    }
  }

  lemma JoinSepHead(parts: seq<string>)
    requires |parts| > 0 && parts[0] != ""
    ensures JoinSep(parts) != "" && JoinSep(parts)[0] == parts[0][0]
  {
  }

  /** What Clean kept, read back from its output: the output splits into those elements. */
  lemma CleanSplit(p: string, kept: seq<string>)
    requires kept == Resolve(Rooted(p), [], Split(p))
    ensures Canonical(Rooted(p), kept)
    ensures Rooted(Clean(p)) == Rooted(p)
    ensures kept == [] ==> Clean(p) == if Rooted(p) then "/" else "."
    ensures kept != [] && Rooted(p) ==> Split(Clean(p)) == [""] + kept
    ensures kept != [] && !Rooted(p) ==> Split(Clean(p)) == kept
  {
    ResolveCanonical(Rooted(p), [], Split(p));
    if kept != [] {
      assert forall i :: 0 <= i < |kept| ==> '/' !in kept[i] by {
        forall i | 0 <= i < |kept|
          ensures '/' !in kept[i]
        {
          assert IsName(kept[i]) || kept[i] == "..";
        }
      }
      if Rooted(p) {
        assert Clean(p) == "/" + JoinSep(kept);
        SplitRooted(kept);
      } else {
        assert Clean(p) == JoinSep(kept);
        assert IsName(kept[0]) || kept[0] == "..";
        SplitRelative(kept);
      }
    }
  }

  /** A path that ends in '/' has an empty last element. */
  lemma TrailingSeparator(s: string)
    requires |s| > 0 && s[|s| - 1] == '/'
    ensures LastPart(s) == ""
  {
    var a := s[..|s| - 1];
    assert s == a + "/" + "";
    SplitAtSeparator(a, "");
  }

  /**
   * The shape of Clean's output: rooted exactly when the input is; either
   * "/" or ".", or ordinary elements separated by single slashes with
   * ".." only as a leading run of a relative path; and no trailing '/'
   * except in "/".
   */
  lemma CleanCanonical(p: string)
    ensures Rooted(Clean(p)) <==> Rooted(p)
    ensures var c := Clean(p);
      || c == "/" || c == "."
      || (var elems := if Rooted(c) then Split(c)[1..] else Split(c);
          |elems| > 0 && Canonical(Rooted(c), elems))
    ensures var c := Clean(p); |c| > 1 ==> c[|c| - 1] != '/'
  {
    var rooted := Rooted(p);
    var kept := Resolve(rooted, [], Split(p));
    CleanSplit(p, kept);
    var c := Clean(p);
    if kept != [] {
      var parts := Split(c);
      assert (if rooted then parts[1..] else parts) == kept;
      assert LastPart(c) == kept[|kept| - 1];
      ResolveKeepsNoEmpty(rooted, [], Split(p));
      if |c| > 1 && c[|c| - 1] == '/' {
        TrailingSeparator(c);
      }
    }
  }

  lemma CleanIdempotent(p: string)
    ensures Clean(Clean(p)) == Clean(p)
  {
    var rooted := Rooted(p);
    var kept := Resolve(rooted, [], Split(p));
    CleanSplit(p, kept);
    ResolveCanonicalFrom(rooted, kept, 0);
    assert kept[..0] == [] && kept[0..] == kept;
    var c := Clean(p);
    if kept == [] {
      if rooted {
        assert Split("/") == ["", ""];
        assert Resolve(true, [], ["", ""]) == [];
      } else {
        SplitName(".");
        assert Resolve(false, [], ["."]) == [];
      }
    } else if rooted {
      ResolveAppend(true, [], [""], kept);
    }
  }
}

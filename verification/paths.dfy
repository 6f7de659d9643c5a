/** Path splitting as `pykern/pksetup.py` uses it: `os.path.split` on a
  POSIX system, and `_fullsplit`, which applies it until the path is used up
  to get the path's components.
 */
module Paths {
  import Strings

  const SEP: char := '/'

  /** Every character of `s` is a separator (true of the empty string). */
  predicate AllSlashes(s: string)
  {
    forall i :: 0 <= i < |s| ==> s[i] == SEP
  }

  predicate NoSlash(s: string)
  {
    forall i :: 0 <= i < |s| ==> s[i] != SEP
  }

  /** `p.rfind('/')`: the index of the last separator, or -1. */
  function LastSlash(p: string): (r: int)
    ensures -1 <= r < |p|
    ensures r >= 0 ==> p[r] == SEP
    ensures forall j :: r < j < |p| ==> p[j] != SEP
  {
    if |p| == 0 then -1
    else if p[|p| - 1] == SEP then |p| - 1
    else LastSlash(p[..|p| - 1])
  }

  /** `s.rstrip('/')`. */
  function RStripSlashes(s: string): (r: string)
    ensures |r| <= |s| && r == s[..|r|]
    ensures AllSlashes(s[|r|..])
    ensures |r| > 0 ==> r[|r| - 1] != SEP
  {
    if |s| > 0 && s[|s| - 1] == SEP then RStripSlashes(s[..|s| - 1]) else s
  }

  /** `posixpath.split(p)`: everything up to the last separator, with
      trailing separators removed unless it is all separators, and
      everything after it. */
  function Split(p: string): (string, string)
  {
    var i := LastSlash(p) + 1;
    var head := p[..i];
    (if head != "" && !AllSlashes(head) then RStripSlashes(head) else head, p[i..])
  }

  /** The head is a prefix of the path, the tail a separator-free suffix,
      and the head is empty only when the path has no separator. The tail is
      the whole last component: all of a path without separators, otherwise
      everything after the last separator; only separators lie between head
      and tail. The head keeps its trailing separators only when it is
      nothing but separators. */
  lemma SplitShape(p: string)
    ensures var (head, tail) := Split(p);
      && |head| <= |p| && head == p[..|head|]
      && NoSlash(tail) && tail == p[|p| - |tail|..]
      && (head == "" <==> NoSlash(p))
      && (NoSlash(p) ==> tail == p)
      && (!NoSlash(p) ==> |tail| < |p| && p[|p| - |tail| - 1] == SEP)
      && |head| + |tail| <= |p| && AllSlashes(p[|head|..|p| - |tail|])
      && (AllSlashes(head) ==> |head| + |tail| == |p|)
      && (!AllSlashes(head) ==> head[|head| - 1] != SEP)
  {
    var i := LastSlash(p) + 1;
    var (head, tail) := Split(p);
    assert tail == p[i..];
    assert NoSlash(tail) by {
      forall k | 0 <= k < |tail| ensures tail[k] != SEP {
        assert tail[k] == p[i + k];
      }
    }
    assert |head| <= |p| && head == p[..|head|] && (i > 0 ==> head != "") by {
      HeadShape(p[..i]);
    }
    assert i == 0 <==> NoSlash(p) by {
      if i > 0 {
        assert p[i - 1] == SEP;
      }
    }
  }

  /** The part of `SplitShape` that `_fullsplit` relies on: the head is a
      prefix of the path and the tail has no separator. */
  lemma SplitParts(p: string)
    ensures var (head, tail) := Split(p);
      |head| <= |p| && head == p[..|head|] && NoSlash(tail)
  {
    SplitShape(p);
  }

  /** Stripping a head that ends with a separator leaves a non-empty prefix
      of it. */
  lemma HeadShape(h: string)
    ensures var r := if h != "" && !AllSlashes(h) then RStripSlashes(h) else h;
      && |r| <= |h| && r == h[..|r|]
      && (h != "" ==> r != "")
  {
    assert h[0..] == h;
  }

  /** `_fullsplit(path, result)`: the components of `path` followed by
      `result`. A path without separators is one component; a head that
      `split` cannot shorten (the root) ends the recursion. */
  function FullSplit(path: string, result: seq<string>): seq<string>
    decreases |path|
  {
    SplitParts(path);
    var (head, tail) := Split(path);
    if head == "" then [tail] + result
    else if head == path then result
    else FullSplit(head, [tail] + result)
  }

  /** `_fullsplit` only puts parts in front of `result`, and every part it
      adds is free of separators. */
  lemma {:induction false} FullSplitSuffix(path: string, result: seq<string>)
    ensures var r := FullSplit(path, result);
      && |result| <= |r| && r[|r| - |result|..] == result
      && forall i :: 0 <= i < |r| - |result| ==> NoSlash(r[i])
    decreases |path|
  {
    SplitParts(path);
    var (head, tail) := Split(path);
    if head != "" && head != path {
      var acc := [tail] + result;
      FullSplitSuffix(head, acc);
      var r := FullSplit(head, acc);
      assert r == FullSplit(path, result);
      assert r[|r| - |result|..] == acc[1..] == result;
      forall i | 0 <= i < |r| - |result| ensures NoSlash(r[i]) {
        if i == |r| - |acc| {
          assert r[i] == r[|r| - |acc|..][0] == tail;
        }
      }
    }
  }

  /** A component as `os.path.join` would produce it: non-empty and without
      separators. */
  predicate Component(c: string)
  {
    c != "" && NoSlash(c)
  }

  predicate Components(cs: seq<string>)
  {
    forall i :: 0 <= i < |cs| ==> Component(cs[i])
  }

  /** The separator-free last part of `Join(cs, "/")` is its last component. */
  lemma SplitJoined(root: string, cs: seq<string>, c: string)
    requires root == "" || root == [SEP]
    requires |cs| > 0 && Components(cs) && Component(c)
    ensures var p := root + Strings.Join(cs, [SEP]);
      Split(p + [SEP] + c) == (p, c)
  {
    RootedEnds(root, cs);
    SplitAtLast(root + Strings.Join(cs, [SEP]), c);
  }

  /** A joined path, with or without the root, ends in a non-separator. */
  lemma RootedEnds(root: string, cs: seq<string>)
    requires root == "" || root == [SEP]
    requires |cs| > 0 && Components(cs)
    ensures var p := root + Strings.Join(cs, [SEP]);
      |p| > 0 && p[|p| - 1] != SEP
  {
    var j := Strings.Join(cs, [SEP]);
    JoinComponentsEnds(cs);
    assert (root + j)[|root + j| - 1] == j[|j| - 1];
  }

  /** A path ending in a non-separator, one separator and a separator-free
      tail splits at that separator. */
  lemma SplitAtLast(p: string, c: string)
    requires |p| > 0 && p[|p| - 1] != SEP && NoSlash(c)
    ensures Split(p + [SEP] + c) == (p, c)
  {
    var q := p + [SEP] + c;
    assert LastSlash(q) == |p| by {
      LastSlashBefore(p, c);
    }
    var head := q[..|p| + 1];
    assert head == p + [SEP];
    assert !AllSlashes(head) by {
      assert head[|p| - 1] != SEP;
    }
    RStripOne(p);
    assert q[|p| + 1..] == c;
  }

  /** Only the tail `c` follows the separator, so `rfind` stops there. */
  lemma {:induction false} LastSlashBefore(p: string, c: string)
    requires NoSlash(c)
    ensures LastSlash(p + [SEP] + c) == |p|
    decreases |c|
  {
    var q := p + [SEP] + c;
    if |c| == 0 {
      assert q == p + [SEP];
    } else {
      var c' := c[..|c| - 1];
      assert q[|q| - 1] == c[|c| - 1];
      assert q[..|q| - 1] == p + [SEP] + c';
      LastSlashBefore(p, c');
    }
  }

  /** A sequence of components joined with separators starts and ends with a
      non-separator. */
  lemma {:induction false} JoinComponentsEnds(cs: seq<string>)
    requires |cs| > 0 && Components(cs)
    ensures var j := Strings.Join(cs, [SEP]);
      |j| > 0 && j[0] != SEP && j[|j| - 1] != SEP
  {
    if |cs| > 1 {
      JoinComponentsEnds(cs[1..]);
      var rest := Strings.Join(cs[1..], [SEP]);
      assert Strings.Join(cs, [SEP]) == cs[0] + [SEP] + rest;
      assert Component(cs[0]);
    } else {
      assert Component(cs[0]);
    }
  }

  lemma {:induction false} LastSlashIs(q: string, k: int)
    requires 0 <= k < |q| && q[k] == SEP
    requires forall j :: k < j < |q| ==> q[j] != SEP
    ensures LastSlash(q) == k
    decreases |q|
  {
    if k < |q| - 1 {
      assert q[|q| - 1] != SEP;
      LastSlashIs(q[..|q| - 1], k);
    }
  }

  lemma RStripOne(p: string)
    requires |p| > 0 && p[|p| - 1] != SEP
    ensures RStripSlashes(p + [SEP]) == p
  {
    assert (p + [SEP])[..|p|] == p;
  }

  /** The separator-free path `c` splits into no head and itself. */
  lemma SplitComponent(c: string)
    requires Component(c)
    ensures Split(c) == ("", c)
  {
    assert LastSlash(c) == -1;
    assert c[0..] == c;
  }

  /** One step of `_fullsplit` on a path whose head is a shorter,
      non-empty path. */
  lemma FullSplitStep(p: string, c: string, result: seq<string>)
    requires p != "" && Split(p + [SEP] + c) == (p, c)
    ensures FullSplit(p + [SEP] + c, result) == FullSplit(p, [c] + result)
  {
    assert p != p + [SEP] + c by {
      assert |p| < |p + [SEP] + c|;
    }
  }

  /** A separator-free path is one component. */
  lemma FullSplitOne(c: string, result: seq<string>)
    requires Component(c)
    ensures FullSplit(c, result) == [c] + result
  {
    SplitComponent(c);
  }

  /** Peeling the last component off a joined path of two or more. */
  lemma JoinSnoc(root: string, cs: seq<string>)
    requires root == "" || root == [SEP]
    requires |cs| > 1 && Components(cs)
    ensures var init := cs[..|cs| - 1];
      var p := root + Strings.Join(init, [SEP]);
      && Components(init)
      && root + Strings.Join(cs, [SEP]) == p + [SEP] + cs[|cs| - 1]
      && p != ""
      && Split(p + [SEP] + cs[|cs| - 1]) == (p, cs[|cs| - 1])
  {
    var init := cs[..|cs| - 1];
    var c := cs[|cs| - 1];
    assert cs == init + [c];
    assert Components(init) by {
      forall i | 0 <= i < |init| ensures Component(init[i]) {
        assert init[i] == cs[i];
      }
    }
    assert Component(c);
    assert root + Strings.Join(cs, [SEP]) == root + Strings.Join(init, [SEP]) + [SEP] + c by {
      Strings.JoinAppend(init, c, [SEP]);
    }
    assert root + Strings.Join(init, [SEP]) != "" by {
      JoinComponentsEnds(init);
    }
    SplitJoined(root, init, c);
  }

  /** `_fullsplit` is the opposite of `os.path.join`: splitting the joined
      relative path gives back its components, in order, before `result`. */
  lemma {:induction false} FullSplitJoin(cs: seq<string>, result: seq<string>)
    requires |cs| > 0 && Components(cs)
    ensures FullSplit(Strings.Join(cs, [SEP]), result) == cs + result
    decreases |cs|
  {
    if |cs| == 1 {
      FullSplitOne(cs[0], result);
    } else {
      var init := cs[..|cs| - 1];
      var c := cs[|cs| - 1];
      JoinSnoc("", cs);
      var p := Strings.Join(init, [SEP]);
      EmptyConcat(p);
      EmptyConcat(Strings.Join(cs, [SEP]));
      FullSplitStep(p, c, result);
      FullSplitJoin(init, [c] + result);
      ConcatSnoc(cs, result);
    }
  }

  lemma EmptyConcat(s: string)
    ensures "" + s == s
  {
  }

  lemma ConcatSnoc<T>(cs: seq<T>, result: seq<T>)
    requires |cs| > 0
    ensures cs[..|cs| - 1] + ([cs[|cs| - 1]] + result) == cs + result
  {
    assert cs == cs[..|cs| - 1] + [cs[|cs| - 1]];
  }

  /** The root on its own yields no components. */
  lemma FullSplitRoot(c: string, result: seq<string>)
    requires Component(c)
    ensures FullSplit([SEP] + c, result) == [c] + result
  {
    var q := [SEP] + c;
    assert LastSlash(q) == 0 by {
      forall j | 0 < j < |q| ensures q[j] != SEP {
        assert q[j] == c[j - 1];
      }
      LastSlashIs(q, 0);
    }
    assert q[..1] == [SEP] && AllSlashes(q[..1]);
    assert q[1..] == c;
    assert Split(q) == ([SEP], c);
    assert Split([SEP]) == ([SEP], "") by {
      assert LastSlash([SEP]) == 0;
      assert [SEP][..1] == [SEP] && [SEP][1..] == "";
      assert AllSlashes([SEP]);
    }
  }

  /** An absolute path gives the same components: the root is dropped. */
  lemma {:induction false} FullSplitRooted(cs: seq<string>, result: seq<string>)
    requires |cs| > 0 && Components(cs)
    ensures FullSplit([SEP] + Strings.Join(cs, [SEP]), result) == cs + result
    decreases |cs|
  {
    if |cs| == 1 {
      FullSplitRoot(cs[0], result);
    } else {
      var init := cs[..|cs| - 1];
      var c := cs[|cs| - 1];
      JoinSnoc([SEP], cs);
      var p := [SEP] + Strings.Join(init, [SEP]);
      FullSplitStep(p, c, result);
      FullSplitRooted(init, [c] + result);
      ConcatSnoc(cs, result);
    }
  }
}

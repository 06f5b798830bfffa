/** Splitting a level of the structure grammar into its conjoined paths
    (`_parse_level_paths`). */
module LevelSplit {
  import opened Wrappers
  import opened Text
  import opened Outcomes

  /** The paren-nesting counter after reading `s`: one up for each `(`,
      one down for each `)`. It may go negative. */
  function Nesting(s: string): int
  {
    if s == [] then 0
    else
      var c := s[|s| - 1];
      Nesting(s[..|s| - 1]) + (if c == '(' then 1 else if c == ')' then -1 else 0)
  }

  /** The raw pieces of `s` between the `&` characters read while the
      nesting counter is 0, before stripping. */
  function Segments(s: string): (r: seq<string>)
    ensures |r| >= 1
    ensures forall k :: 0 <= k < |r| ==> |r[k]| <= |s|
  {
    if s == [] then [""]
    else
      var p, c := s[..|s| - 1], s[|s| - 1];
      Extend(Segments(p), c, c == '&' && Nesting(p) == 0)
  }

  /** The positions of the separators in `JoinWith(pieces, '&')`. */
  ghost function Joints(pieces: seq<string>): set<int>
    requires |pieces| >= 1
  {
    if |pieces| == 1 then {}
    else
      var init := pieces[..|pieces| - 1];
      Joints(init) + {|JoinWith(init, '&')|}
  }

  lemma {:induction false} JointsBelow(pieces: seq<string>)
    requires |pieces| >= 1
    ensures forall j :: j in Joints(pieces) ==> 0 <= j < |JoinWith(pieces, '&')|
  {
    if |pieces| > 1 {
      JointsBelow(pieces[..|pieces| - 1]);
    }
  }

  lemma {:induction false} JointsExtend(pieces: seq<string>, t: char)
    requires |pieces| >= 1
    ensures Joints(Extend(pieces, t, false)) == Joints(pieces)
  {
    var q := Extend(pieces, t, false);
    if |pieces| > 1 {
      assert q[..|q| - 1] == pieces[..|pieces| - 1];
    }
  }

  /** One step of `Segments`: the next character either cuts or extends the last piece. */
  lemma {:induction false} SegmentsSnoc(p: string, c: char)
    ensures Segments(p + [c]) == Extend(Segments(p), c, c == '&' && Nesting(p) == 0)
    ensures Nesting(p + [c]) == Nesting(p) + (if c == '(' then 1 else if c == ')' then -1 else 0)
  {
    assert (p + [c])[..|p + [c]| - 1] == p;
  }

  /** Reading one more character of `l`. */
  lemma {:induction false} PrefixStep(l: string, i: nat)
    requires i < |l|
    ensures Segments(l[..i + 1]) == Extend(Segments(l[..i]), l[i], l[i] == '&' && Nesting(l[..i]) == 0)
    ensures Nesting(l[..i + 1]) == Nesting(l[..i]) + (if l[i] == '(' then 1 else if l[i] == ')' then -1 else 0)
  {
    assert l[..i + 1] == l[..i] + [l[i]];
    SegmentsSnoc(l[..i], l[i]);
  }

  /** A cut is a top-level `&` read so far. */
  ghost predicate CutsAt(s: string, pieces: seq<string>)
    requires |pieces| >= 1
  {
    forall j :: 0 <= j < |s| ==> (j in Joints(pieces) <==> s[j] == '&' && Nesting(s[..j]) == 0)
  }

  lemma {:induction false} CutsAtSnoc(p: string, c: char, segs: seq<string>, r: seq<string>)
    requires |segs| >= 1 && |r| >= 1
    requires JoinWith(segs, '&') == p && CutsAt(p, segs)
    requires Joints(r) == if c == '&' && Nesting(p) == 0 then Joints(segs) + {|p|} else Joints(segs)
    ensures CutsAt(p + [c], r)
  {
    JointsBelow(segs);
    var s := p + [c];
    forall j | 0 <= j < |s|
      ensures j in Joints(r) <==> s[j] == '&' && Nesting(s[..j]) == 0
    {
      if j < |p| {
        assert s[..j] == p[..j];
        assert s[j] == p[j];
      } else {
        assert s[..j] == p;
      }
    }
  }

  /** The level text is cut exactly at its top-level `&` characters: joining
      the pieces with `&` rebuilds the text, and a position is a cut iff it
      holds an `&` read while the nesting counter is 0. */
  lemma {:induction false} SegmentsSplitAtTopLevel(s: string)
    ensures JoinWith(Segments(s), '&') == s
    ensures forall j :: 0 <= j < |s| ==>
              (j in Joints(Segments(s)) <==> s[j] == '&' && Nesting(s[..j]) == 0)
  {
    if s != [] {
      var p, c := s[..|s| - 1], s[|s| - 1];
      assert s == p + [c];
      var segs := Segments(p);
      var cut := c == '&' && Nesting(p) == 0;
      SegmentsSplitAtTopLevel(p);
      SegmentsSnoc(p, c);
      JoinWithExtend(segs, '&', c, cut);
      var r := Extend(segs, c, cut);
      if cut {
        assert r[..|r| - 1] == segs;
      } else {
        JointsExtend(segs, c);
      }
      CutsAtSnoc(p, c, segs, r);
    }
  }

  /** `_parse_level_paths` as a specification: strip the level, unwrap one
      leading `(` when the last character is `)`, then split at top-level `&`
      and strip every piece. */
  function ParseLevel(level: string): (r: Result<seq<string>, Outcome>)
    ensures r.Success? ==> |r.value| >= 1
    ensures r.Success? ==> forall k :: 0 <= k < |r.value| ==>
              Stripped(r.value[k]) && |r.value[k]| <= |level|
    ensures r.Failure? <==> var l := Strip(level);
              l == [] || (l[0] == '(' && (|l| == 1 || l[|l| - 1] != ')'))
    ensures r.Failure? && |Strip(level)| < 2 ==> r.error == Crash(LevelIndexError)
    ensures r.Failure? && |Strip(level)| >= 2 ==> r.error == Malformed(UnmatchedParen(Strip(level)[1..]))
  {
    var l := Strip(level);
    if l == [] then Failure(Crash(LevelIndexError))
    else if l[0] == '(' then
      var inner := l[1..];
      if inner == [] then Failure(Crash(LevelIndexError))
      else if inner[|inner| - 1] == ')' then Success(StripAll(Segments(inner[..|inner| - 1])))
      else Failure(Malformed(UnmatchedParen(inner)))
    else Success(StripAll(Segments(l)))
  }

  /** `_parse_level_paths`: strip, unwrap, then one pass over the level in
      which `depth` is where the current path starts and `nested` is the
      paren counter. */
  method ParseLevelPaths(level: string) returns (r: Result<seq<string>, Outcome>)
    ensures r == ParseLevel(level)
  {
    var l := Strip(level);
    if l == [] {
      return Failure(Crash(LevelIndexError));
    }
    if l[0] == '(' {
      l := l[1..];
      if l == [] {
        return Failure(Crash(LevelIndexError));
      }
      if l[|l| - 1] == ')' {
        l := l[..|l| - 1];
      } else {
        return Failure(Malformed(UnmatchedParen(l)));
      }
    }
    var paths := SplitPaths(l);
    return Success(paths);
  }

  /** The state of the splitting loop after reading `l[..i]`: `depth` is where
      the current path starts, `nested` the paren counter, `paths` the paths
      cut so far and `segs` the pieces read so far. */
  ghost predicate SplitState(l: string, i: nat, depth: nat, nested: int, paths: seq<string>, segs: seq<string>)
  {
    depth <= i <= |l| &&
    nested == Nesting(l[..i]) &&
    segs == Segments(l[..i]) &&
    |segs| == |paths| + 1 &&
    (forall k :: 0 <= k < |paths| ==> paths[k] == Strip(segs[k])) &&
    segs[|paths|] == l[depth..i]
  }

  /** Reading a top-level `&` cuts the current path. */
  lemma {:induction false} SplitStateCut(l: string, i: nat, depth: nat, nested: int, paths: seq<string>, segs: seq<string>)
    requires SplitState(l, i, depth, nested, paths, segs)
    requires i < |l| && l[i] == '&' && nested == 0
    ensures SplitState(l, i + 1, i + 1, nested, paths + [Strip(l[depth..i])], Extend(segs, '&', true))
  {
    PrefixStep(l, i);
    var segs', paths' := segs + [""], paths + [Strip(l[depth..i])];
    assert forall k :: 0 <= k < |paths| ==> segs'[k] == segs[k] && paths'[k] == paths[k];
    assert l[i + 1..i + 1] == [];
  }

  /** Any other character extends the current path. */
  lemma {:induction false} SplitStateExtend(l: string, i: nat, depth: nat, nested: int, paths: seq<string>, segs: seq<string>)
    requires SplitState(l, i, depth, nested, paths, segs)
    requires i < |l| && !(l[i] == '&' && nested == 0)
    ensures SplitState(l, i + 1, depth, nested + (if l[i] == '(' then 1 else if l[i] == ')' then -1 else 0),
                       paths, Extend(segs, l[i], false))
  {
    PrefixStep(l, i);
    assert l[depth..i + 1] == l[depth..i] + [l[i]];
  }

  lemma {:induction false} SplitStateDone(l: string, depth: nat, nested: int, paths: seq<string>, segs: seq<string>)
    requires SplitState(l, |l|, depth, nested, paths, segs)
    ensures paths + [Strip(l[depth..])] == StripAll(Segments(l))
  {
    assert l[..|l|] == l;
    assert l[depth..|l|] == l[depth..];
    var r := paths + [Strip(l[depth..])];
    assert |r| == |StripAll(segs)|;
    forall k | 0 <= k < |r|
      ensures r[k] == StripAll(segs)[k]
    {
    }
  }

  /** The splitting loop of `_parse_level_paths`. */
  method SplitPaths(l: string) returns (paths: seq<string>)
    ensures paths == StripAll(Segments(l))
  {
    paths := [];
    var depth, nested := 0, 0;
    var i := 0;
    ghost var segs := Segments([]);
    assert l[..0] == [];
    while i < |l|
      invariant SplitState(l, i, depth, nested, paths, segs)
    {
      var ch := l[i];
      if ch == '&' && nested == 0 {
        SplitStateCut(l, i, depth, nested, paths, segs);
        segs := Extend(segs, ch, true);
        paths := paths + [Strip(l[depth..i])];
        depth := i + 1;
      } else {
        SplitStateExtend(l, i, depth, nested, paths, segs);
        segs := Extend(segs, ch, false);
        if ch == '(' {
          nested := nested + 1;
        } else if ch == ')' {
          nested := nested - 1;
        }
      }
      i := i + 1;
    }
    SplitStateDone(l, depth, nested, paths, segs);
    paths := paths + [Strip(l[depth..])];
  }
}

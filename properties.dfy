/** What the validator promises, stated over the model of `ResponseValidator`. */
module ValidatorProperties {
  import opened Wrappers
  import opened Text
  import opened JsonValues
  import opened Outcomes
  import opened LevelSplit
  import opened Validator

  // ---------------------------------------------------------------------------
  // Conjunction: the three loops report the first failure, and succeed iff
  // every iteration succeeds.

  /** The outcome of a loop that runs `step` on each of `xs` and stops at the
      first failure. */
  function FirstFailure<X>(xs: seq<X>, step: X -> Outcome): Outcome
  {
    if xs == [] then Ok
    else if step(xs[0]) != Ok then step(xs[0])
    else FirstFailure(xs[1..], step)
  }

  /** Such a loop succeeds iff every step does, and otherwise reports the
      earliest failing step. */
  lemma {:induction false} FirstFailureIsFirst<X>(xs: seq<X>, step: X -> Outcome)
    ensures FirstFailure(xs, step) == Ok <==> forall k :: 0 <= k < |xs| ==> step(xs[k]) == Ok
    ensures FirstFailure(xs, step) != Ok ==>
              exists k :: 0 <= k < |xs| && step(xs[k]) == FirstFailure(xs, step) &&
                          forall j :: 0 <= j < k ==> step(xs[j]) == Ok
  {
    if xs != [] && step(xs[0]) == Ok {
      FirstFailureIsFirst(xs[1..], step);
      assert forall k :: 1 <= k < |xs| ==> xs[k] == xs[1..][k - 1];
      if FirstFailure(xs[1..], step) != Ok {
        var k :| 0 <= k < |xs[1..]| && step(xs[1..][k]) == FirstFailure(xs[1..], step) &&
                 forall j :: 0 <= j < k ==> step(xs[1..][j]) == Ok;
        assert step(xs[k + 1]) == FirstFailure(xs, step);
      }
    }
  }

  /** The loop over the paths of a level is a first-failure loop. */
  lemma {:induction false} PathsLoop(level: string, paths: seq<string>, v: Json)
    requires forall k :: 0 <= k < |paths| ==> |paths[k]| <= |level|
    ensures Paths(level, paths, v) == FirstFailure(paths, p => Path(p, v))
  {
    if paths != [] {
      PathsLoop(level, paths[1..], v);
    }
  }

  /** The paths of a level all hold iff the loop over them succeeds; when it
      fails, it reports the earliest failing path. */
  lemma {:induction false} PathsConjunction(level: string, paths: seq<string>, v: Json)
    requires forall k :: 0 <= k < |paths| ==> |paths[k]| <= |level|
    ensures Paths(level, paths, v) == Ok <==> forall k :: 0 <= k < |paths| ==> Path(paths[k], v) == Ok
    ensures Paths(level, paths, v) != Ok ==>
              exists k :: 0 <= k < |paths| && Path(paths[k], v) == Paths(level, paths, v) &&
                          forall j :: 0 <= j < k ==> Path(paths[j], v) == Ok
  {
    PathsLoop(level, paths, v);
    FirstFailureIsFirst(paths, p => Path(p, v));
  }

  /** A non-empty level that splits into paths holds of `v` iff every path
      does; otherwise the earliest failing path decides. */
  lemma {:induction false} LevelConjunction(level: string, v: Json)
    requires level != "" && ParseLevel(level).Success?
    ensures var paths := ParseLevel(level).value;
            (Level(level, v) == Ok <==> forall k :: 0 <= k < |paths| ==> Path(paths[k], v) == Ok) &&
            (Level(level, v) != Ok ==>
               exists k :: 0 <= k < |paths| && Path(paths[k], v) == Level(level, v) &&
                           forall j :: 0 <= j < k ==> Path(paths[j], v) == Ok)
  {
    PathsConjunction(level, ParseLevel(level).value, v);
  }

  /** The elements of an array all satisfy the rest of the chain iff the loop
      over them succeeds; otherwise the earliest failing element decides. */
  lemma {:induction false} ElementsAll(items: seq<Json>, tokens: seq<string>, next: string)
    ensures Elements(items, tokens, next) == Ok <==>
              forall i :: 0 <= i < |items| ==> Array(tokens, next, items[i]) == Ok
    ensures Elements(items, tokens, next) != Ok ==>
              exists i :: 0 <= i < |items| && Array(tokens, next, items[i]) == Elements(items, tokens, next) &&
                          forall j :: 0 <= j < i ==> Array(tokens, next, items[j]) == Ok
  {
    ElementsLoop(items, tokens, next);
    FirstFailureIsFirst(items, x => Array(tokens, next, x));
  }

  /** The loop over the elements of a list is a first-failure loop. */
  lemma {:induction false} ElementsLoop(items: seq<Json>, tokens: seq<string>, next: string)
    ensures Elements(items, tokens, next) == FirstFailure(items, x => Array(tokens, next, x))
  {
    if items != [] {
      ElementsLoop(items[1..], tokens, next);
    }
  }

  /** The fan-out over the keys of a dict succeeds iff every key, read as a
      key of the grammar, succeeds against the dict; otherwise the earliest
      failing key decides. */
  lemma {:induction false} FanOutAll(entries: seq<(string, Json)>, next: string, dict: Json)
    ensures FanOut(entries, next, dict) == Ok <==>
              forall i :: 0 <= i < |entries| ==> Key(entries[i].0, next, dict) == Ok
    ensures FanOut(entries, next, dict) != Ok ==>
              exists i :: 0 <= i < |entries| && Key(entries[i].0, next, dict) == FanOut(entries, next, dict) &&
                          forall j :: 0 <= j < i ==> Key(entries[j].0, next, dict) == Ok
  {
    FanOutLoop(entries, next, dict);
    FirstFailureIsFirst(entries, (e: (string, Json)) => Key(e.0, next, dict));
  }

  /** The loop over the keys of a dict is a first-failure loop. */
  lemma {:induction false} FanOutLoop(entries: seq<(string, Json)>, next: string, dict: Json)
    ensures FanOut(entries, next, dict) == FirstFailure(entries, (e: (string, Json)) => Key(e.0, next, dict))
  {
    if entries != [] {
      FanOutLoop(entries[1..], next, dict);
    }
  }

  // ---------------------------------------------------------------------------
  // One key step.

  /** A dict key as a path names it: no `[`, no `?` in front, no surrounding
      whitespace. */
  predicate PlainName(n: string)
  {
    n != [] && Stripped(n) && '[' !in n && n[0] != '?'
  }

  /** The accessor part of a key: nothing, or text starting with `[`. */
  predicate AccessorText(acc: string)
  {
    acc == [] || acc[0] == '['
  }

  /** The array tokens an accessor text yields. */
  function Accessors(acc: string): seq<string>
  {
    Tokens(KeyParts(acc)[1..])
  }

  /** Text that starts with `[` splits into an empty first piece. */
  lemma {:induction false} OpeningBracket(rest: string)
    ensures |SplitOn("[" + rest, '[')| >= 2 && SplitOn("[" + rest, '[')[0] == ""
  {
    var y := SplitOn(rest, '[');
    SplitOnConcat("[", rest, '[');
    assert SplitOn("[", '[') == ["", ""] by {
      assert "["[..0] == [];
      assert SplitOn([], '[') == [""];
    }
    var f := Fuse(["", ""], y);
    assert f[0] == "";
  }

  /** Splitting a key at `[` gives its name first and then the pieces of the
      accessor text. */
  lemma {:induction false} KeyPartsOfName(name: string, acc: string)
    requires name != [] && Stripped(name) && '[' !in name && AccessorText(acc)
    ensures KeyParts(name + acc) == [name] + KeyParts(acc)[1..]
  {
    var y := SplitOn(acc, '[');
    if acc != [] {
      assert "[" + acc[1..] == acc;
      OpeningBracket(acc[1..]);
    }
    assert y[0] == "";
    SplitOnConcat(name, acc, '[');
    var x := SplitOn(name + acc, '[');
    SplitOnPieces(name, '[');
    assert name + y[0] == name;
    assert x == [name] + y[1..];
    StripAllTail(x);
    StripAllTail(y);
    assert x[1..] == y[1..];
  }

  /** Stripping every piece commutes with dropping the first one. */
  lemma {:induction false} StripAllTail(ps: seq<string>)
    requires |ps| >= 1
    ensures StripAll(ps) == [Strip(ps[0])] + StripAll(ps[1..])
  {
    var a, b := StripAll(ps), StripAll(ps[1..]);
    forall k | 1 <= k < |ps| ensures a[k] == b[k - 1] {
      assert ps[1..][k - 1] == ps[k];
    }
    assert a == [a[0]] + b;
  }

  /** `?` in front of a plain name still gives a name without `[` or
      surrounding whitespace, and dropping the `?` gives the name back. */
  lemma {:induction false} OptionalName(n: string)
    requires PlainName(n)
    ensures var q := "?" + n;
            q != [] && Stripped(q) && '[' !in q && q[0] == '?' && q[1..] == n
  {
    var q := "?" + n;
    assert q[|q| - 1] == n[|n| - 1];
    assert forall i :: 1 <= i < |q| ==> q[i] == n[i - 1];
  }

  /** The parts of a key: the name, then the accessor pieces. */
  lemma {:induction false} KeySplit(n: string, acc: string)
    requires PlainName(n) && AccessorText(acc)
    ensures KeyParts(n + acc)[0] == n
    ensures KeyParts("?" + n + acc)[0] == "?" + n
    ensures KeyParts(n + acc)[1..] == KeyParts("?" + n + acc)[1..] == KeyParts(acc)[1..]
  {
    KeyPartsOfName(n, acc);
    OptionalName(n);
    KeyPartsOfName("?" + n, acc);
  }

  /** A named key, optional or not, is only looked up in a dict. */
  lemma {:induction false} KeyNeedsDict(n: string, acc: string, next: string, v: Json)
    requires PlainName(n) && AccessorText(acc) && !v.JObj?
    ensures Key(n + acc, next, v) == BadFormat(NotADict(v))
    ensures Key("?" + n + acc, next, v) == BadFormat(NotADict(v))
  {
    KeySplit(n, acc);
  }

  /** A missing key fails with its name and the dict. */
  lemma {:induction false} KeyMissing(n: string, acc: string, next: string, f: seq<(string, Json)>)
    requires PlainName(n) && AccessorText(acc) && Lookup(f, n).None?
    ensures Key(n + acc, next, JObj(f)) == BadFormat(MissingKey(n, JObj(f)))
  {
    KeySplit(n, acc);
  }

  /** A missing optional key skips the whole remainder of the path. */
  lemma {:induction false} OptionalMissing(n: string, acc: string, next: string, f: seq<(string, Json)>)
    requires PlainName(n) && AccessorText(acc) && Lookup(f, n).None?
    ensures Key("?" + n + acc, next, JObj(f)) == Ok
  {
    KeySplit(n, acc);
    OptionalName(n);
  }

  /** Accessor text yields tokens exactly when it is not empty. */
  lemma {:induction false} AccessorCount(acc: string)
    requires AccessorText(acc)
    ensures |KeyParts(acc)| == 1 <==> acc == []
  {
    if acc != [] {
      assert "[" + acc[1..] == acc;
      OpeningBracket(acc[1..]);
    }
  }

  /** The tokens of a key without accessors are none. */
  lemma {:induction false} NoAccessors(acc: string)
    requires |KeyParts(acc)| == 1
    ensures Accessors(acc) == []
  {
  }

  /** A present key without accessors hands its value to the remainder. */
  lemma {:induction false} BareKeyPresent(n: string, next: string, f: seq<(string, Json)>)
    requires PlainName(n) && Lookup(f, n).Some?
    ensures Key(n, next, JObj(f)) == if next != "" then Level(next, Lookup(f, n).value) else Ok
  {
    assert KeyParts(n) == [n] by {
      SplitOnPieces(n, '[');
    }
  }

  /** A present key with accessors hands its value to the array tokens. */
  lemma {:induction false} IndexedKeyPresent(n: string, acc: string, next: string, f: seq<(string, Json)>)
    requires PlainName(n) && AccessorText(acc) && |KeyParts(acc)| > 1 && Lookup(f, n).Some?
    ensures Key(n + acc, next, JObj(f)) == Array(Accessors(acc), next, Lookup(f, n).value)
  {
    var parts := KeyParts(n + acc);
    KeySplit(n, acc);
    assert parts[0] == n && n[0] != '?';
    assert Tokens(parts[1..]) == Accessors(acc);
  }

  /** A present key hands its value to the accessors and then to the
      remainder of the path. */
  lemma {:induction false} KeyPresent(n: string, acc: string, next: string, f: seq<(string, Json)>)
    requires PlainName(n) && AccessorText(acc) && Lookup(f, n).Some?
    ensures Key(n + acc, next, JObj(f)) == Array(Accessors(acc), next, Lookup(f, n).value)
  {
    if |KeyParts(acc)| > 1 {
      IndexedKeyPresent(n, acc, next, f);
    } else {
      AccessorCount(acc);
      NoAccessors(acc);
      assert n + acc == n;
      BareKeyPresent(n, next, f);
    }
  }

  /** A present optional key behaves as the same key without the `?`. */
  lemma {:induction false} OptionalPresent(n: string, acc: string, next: string, f: seq<(string, Json)>)
    requires PlainName(n) && AccessorText(acc) && Lookup(f, n).Some?
    ensures Key("?" + n + acc, next, JObj(f)) == Array(Accessors(acc), next, Lookup(f, n).value)
  {
    var parts := KeyParts("?" + n + acc);
    KeySplit(n, acc);
    OptionalName(n);
    assert parts[0] == "?" + n && parts[0][1..] == n;
    assert Tokens(parts[1..]) == Accessors(acc);
    assert |parts| == |KeyParts(acc)|;
    if |parts| == 1 {
      NoAccessors(acc);
    }
  }

  /** Keys of the response that the structure does not name never matter:
      other fields before or after the dict's fields leave a present key's
      outcome unchanged, a missing key still missing, and an optional key's
      outcome unchanged either way. */
  lemma {:induction false} ExtraKeysIgnored(n: string, acc: string, next: string, pre: seq<(string, Json)>,
                                            f: seq<(string, Json)>, post: seq<(string, Json)>)
    requires PlainName(n) && AccessorText(acc)
    requires forall i :: 0 <= i < |pre| ==> pre[i].0 != n
    requires forall i :: 0 <= i < |post| ==> post[i].0 != n
    ensures Lookup(f, n).Some? ==> Key(n + acc, next, JObj(pre + f + post)) == Key(n + acc, next, JObj(f))
    ensures Lookup(f, n).None? ==>
              Key(n + acc, next, JObj(pre + f + post)) == BadFormat(MissingKey(n, JObj(pre + f + post)))
    ensures Key("?" + n + acc, next, JObj(pre + f + post)) == Key("?" + n + acc, next, JObj(f))
  {
    var g := pre + f + post;
    LookupAmong(pre, f, post, n);
    if Lookup(f, n).Some? {
      KeyPresent(n, acc, next, f);
      KeyPresent(n, acc, next, g);
      OptionalPresent(n, acc, next, f);
      OptionalPresent(n, acc, next, g);
    } else {
      KeyMissing(n, acc, next, g);
      OptionalMissing(n, acc, next, f);
      OptionalMissing(n, acc, next, g);
    }
  }

  // ---------------------------------------------------------------------------
  // One path.

  /** A path is cut at its first `>`: the stripped text before it is the key,
      the stripped text after it the remainder. */
  lemma {:induction false} PathCut(key: string, rest: string)
    requires '>' !in key
    ensures PathKey(key + ">" + rest) == Strip(key)
    ensures PathNext(key + ">" + rest) == Strip(rest)
  {
    FindFirst(key, '>', rest);
    var path := key + ">" + rest;
    assert path[..|key|] == key;
    assert path[|key| + 1..] == rest;
  }

  /** `*` followed by whitespace is the key `*`. */
  lemma {:induction false} StarKey(ws: string, rest: string)
    requires AllSpace(ws)
    ensures PathKey("*" + ws + ">" + rest) == "*"
    ensures PathKey("*" + ws) == "*"
  {
    var key := "*" + ws;
    assert '>' !in key by {
      assert forall i :: 1 <= i < |key| ==> key[i] == ws[i - 1];
    }
    StripPadded("", "*", ws);
    assert "" + "*" + ws == key;
    PathCut(key, rest);
  }

  /** `*` only asks for a dict, and whatever follows its `>` is never read. */
  lemma {:induction false} StarStep(ws: string, rest: string, v: Json)
    requires AllSpace(ws)
    ensures Path("*" + ws + ">" + rest, v) == (if v.JObj? then Ok else BadFormat(NotADict(v)))
    ensures Path("*" + ws, v) == (if v.JObj? then Ok else BadFormat(NotADict(v)))
  {
    StarKey(ws, rest);
  }

  /** Whitespace before `>` is the empty key. */
  lemma {:induction false} EmptyKey(ws: string, rest: string)
    requires AllSpace(ws)
    ensures PathKey(ws + ">" + rest) == ""
    ensures PathNext(ws + ">" + rest) == Strip(rest)
  {
    assert '>' !in ws by {
      assert forall i :: 0 <= i < |ws| ==> IsSpace(ws[i]);
    }
    StripPadded(ws, "", "");
    assert ws + "" + "" == ws;
    PathCut(ws, rest);
  }

  /** A plain key of a dict with distinct keys, followed by nothing but the
      remainder, hands its own value to the remainder. */
  lemma {:induction false} PlainKeyStep(f: seq<(string, Json)>, i: nat, next: string)
    requires UniqueKeys(f) && i < |f| && PlainName(f[i].0)
    ensures Key(f[i].0, next, JObj(f)) == (if next == "" then Ok else Level(next, f[i].1))
  {
    LookupUnique(f, i);
    KeyPresent(f[i].0, "", next, f);
    assert f[i].0 + "" == f[i].0;
    assert KeyParts("") == [""];
  }

  /** An empty key raises on anything but a dict. */
  lemma {:induction false} DepthWildcardNeedsDict(ws: string, rest: string, v: Json)
    requires AllSpace(ws) && !v.JObj?
    ensures Path(ws + ">" + rest, v) == Crash(NoKeys(v))
  {
    EmptyKey(ws, rest);
  }

  /** An empty key fans out over the keys of a dict: with plain, distinct
      keys, the path holds iff the remainder holds of every value, and the
      empty dict satisfies it vacuously. */
  lemma {:induction false} DepthWildcard(ws: string, rest: string, f: seq<(string, Json)>)
    requires AllSpace(ws) && UniqueKeys(f) && forall i :: 0 <= i < |f| ==> PlainName(f[i].0)
    ensures Path(ws + ">" + rest, JObj(f)) == Ok <==>
              forall i :: 0 <= i < |f| ==> Strip(rest) == "" || Level(Strip(rest), f[i].1) == Ok
  {
    EmptyKey(ws, rest);
    var next := Strip(rest);
    FanOutAll(f, next, JObj(f));
    forall i | 0 <= i < |f|
      ensures Key(f[i].0, next, JObj(f)) == (if next == "" then Ok else Level(next, f[i].1))
    {
      PlainKeyStep(f, i, next);
    }
  }

  /** A single key as the whole remainder is looked up directly in the value:
      a dict without that key fails, whatever its values hold further down. */
  lemma {:induction false} SingleKeyLevel(n: string, g: seq<(string, Json)>)
    requires PlainName(n) && n != "*" && n[0] != '(' && '&' !in n && '>' !in n && Lookup(g, n).None?
    ensures Level(n, JObj(g)) == BadFormat(MissingKey(n, JObj(g)))
  {
    SinglePath(n);
    LevelOnePath(n, n, JObj(g));
    PathWhole(n);
    assert Path(n, JObj(g)) == Key(n, "", JObj(g));
    assert n + "" == n;
    KeyMissing(n, "", "", g);
  }

  /** Each extra `>` descends exactly one level: if one value of the dict is a
      dict that lacks the key, the fan-out fails, even when the key occurs
      deeper inside that value. */
  lemma {:induction false} DepthWildcardOneLevel(ws: string, n: string, f: seq<(string, Json)>, i: nat)
    requires AllSpace(ws) && UniqueKeys(f) && forall k :: 0 <= k < |f| ==> PlainName(f[k].0)
    requires PlainName(n) && n != "*" && n[0] != '(' && '&' !in n && '>' !in n
    requires i < |f| && f[i].1.JObj? && Lookup(f[i].1.fields, n).None?
    ensures Path(ws + ">" + n, JObj(f)) != Ok
  {
    DepthWildcard(ws, n, f);
    StripPadded("", n, "");
    assert "" + n + "" == n;
    SingleKeyLevel(n, f[i].1.fields);
  }

  // ---------------------------------------------------------------------------
  // Array accessors.

  /** Any accessor demands a list, whatever its token: the list check comes
      first, and an unknown token is a defect of the structure only once the
      value is a list. */
  lemma {:induction false} ArrayNeedsList(t: string, rest: seq<string>, next: string, v: Json)
    ensures !v.JArr? ==> Array([t] + rest, next, v) == BadFormat(NotAnArray(v))
    ensures v.JArr? && !IsDigits(t) && t != "*" && t != "+" ==>
              Array([t] + rest, next, v) == Malformed(BadArrayToken)
  {
  }

  /** `[i]` needs `i` below the length and continues with element `i`. */
  lemma {:induction false} ArrayIndex(t: string, rest: seq<string>, next: string, items: seq<Json>)
    requires IsDigits(t)
    ensures ParseNat(t) < |items| ==> Array([t] + rest, next, JArr(items)) == Array(rest, next, items[ParseNat(t)])
    ensures |items| <= ParseNat(t) ==>
              Array([t] + rest, next, JArr(items)) == BadFormat(IndexOutOfRange(JArr(items), ParseNat(t)))
  {
    assert ([t] + rest)[1..] == rest;
  }

  /** `[*]` holds iff the rest of the chain holds of every element; on the
      empty list it holds vacuously. */
  lemma {:induction false} ArrayEvery(rest: seq<string>, next: string, items: seq<Json>)
    ensures Array(["*"] + rest, next, JArr(items)) == Ok <==>
              forall i :: 0 <= i < |items| ==> Array(rest, next, items[i]) == Ok
    ensures Array(["*"] + rest, next, JArr([])) == Ok
  {
    var star := "*";
    assert star[0] == '*';
    assert !IsDigits(star);
    assert (["*"] + rest)[1..] == rest;
    ElementsAll(items, rest, next);
  }

  /** `[+]` holds iff the list is not empty and the rest of the chain holds of
      every element; the empty list is its own failure. */
  lemma {:induction false} ArrayNonEmpty(rest: seq<string>, next: string, items: seq<Json>)
    ensures Array(["+"] + rest, next, JArr(items)) == Ok <==>
              items != [] && forall i :: 0 <= i < |items| ==> Array(rest, next, items[i]) == Ok
    ensures Array(["+"] + rest, next, JArr([])) == BadFormat(EmptyArray)
  {
    var plus := "+";
    assert plus[0] == '+';
    assert !IsDigits(plus);
    assert (["+"] + rest)[1..] == rest;
    ElementsAll(items, rest, next);
  }

  /** The values a chain of accessor tokens leads to from `v`, in order, or
      None when one of its checks fails on the way: a value that is not a
      list, an index past the end, `[+]` on an empty list, an unknown token. */
  function Reached(ts: seq<string>, v: Json): Option<seq<Json>>
    decreases |ts|, 0
  {
    if ts == [] then Some([v])
    else if !v.JArr? then None
    else if IsDigits(ts[0]) then
      if ParseNat(ts[0]) < |v.items| then Reached(ts[1..], v.items[ParseNat(ts[0])]) else None
    else if ts[0] == "*" || (ts[0] == "+" && v.items != []) then ReachedAll(ts[1..], v.items)
    else None
  }

  /** The values the chain `ts` leads to from each of `items`, concatenated. */
  function ReachedAll(ts: seq<string>, items: seq<Json>): Option<seq<Json>>
    decreases |ts|, 1, |items|
  {
    if items == [] then Some([])
    else
      match (Reached(ts, items[0]), ReachedAll(ts, items[1..]))
      case (Some(a), Some(b)) => Some(a + b)
      case _ => None
  }

  /** The remainder of a path holds of every value in `ws`; no remainder
      always holds. */
  predicate RemainderHolds(next: string, ws: seq<Json>)
  {
    next == "" || forall k :: 0 <= k < |ws| ==> Level(next, ws[k]) == Ok
  }

  lemma {:induction false} RemainderAppend(next: string, a: seq<Json>, b: seq<Json>)
    ensures RemainderHolds(next, a + b) <==> RemainderHolds(next, a) && RemainderHolds(next, b)
  {
    if next != "" {
      if RemainderHolds(next, a) && RemainderHolds(next, b) {
        forall k | 0 <= k < |a + b| ensures Level(next, (a + b)[k]) == Ok {
          if k >= |a| {
            assert (a + b)[k] == b[k - |a|];
          }
        }
      }
      if RemainderHolds(next, a + b) {
        forall k | 0 <= k < |b| ensures Level(next, b[k]) == Ok {
          assert (a + b)[|a| + k] == b[k];
        }
        forall k | 0 <= k < |a| ensures Level(next, a[k]) == Ok {
          assert (a + b)[k] == a[k];
        }
      }
    }
  }

  /** A chain of accessors holds iff every check on the way passes and the
      remainder of the path holds of every value the chain reaches; with no
      remainder, passing the checks is enough. */
  lemma {:induction false} ArrayThenRemainder(ts: seq<string>, next: string, v: Json)
    ensures Array(ts, next, v) == Ok <==>
              Reached(ts, v).Some? && RemainderHolds(next, Reached(ts, v).value)
    decreases |ts|, 0
  {
    if ts == [] {
      assert [v][0] == v;
    } else if v.JArr? {
      var t := ts[0];
      if IsDigits(t) {
        if ParseNat(t) < |v.items| {
          ArrayThenRemainder(ts[1..], next, v.items[ParseNat(t)]);
        }
      } else if t == "*" || (t == "+" && v.items != []) {
        ElementsThenRemainder(v.items, ts[1..], next);
      }
    }
  }

  /** The loop over the elements holds iff the chain holds from each of them. */
  lemma {:induction false} ElementsThenRemainder(items: seq<Json>, ts: seq<string>, next: string)
    ensures Elements(items, ts, next) == Ok <==>
              ReachedAll(ts, items).Some? && RemainderHolds(next, ReachedAll(ts, items).value)
    decreases |ts|, 1, |items|
  {
    if items != [] {
      ArrayThenRemainder(ts, next, items[0]);
      ElementsThenRemainder(items[1..], ts, next);
      var a, b := Reached(ts, items[0]), ReachedAll(ts, items[1..]);
      if a.Some? && b.Some? {
        RemainderAppend(next, a.value, b.value);
      }
    }
  }

  // ---------------------------------------------------------------------------
  // Writing accessors and reading them back.

  /** A token as it can appear between brackets: no `[`, no surrounding
      whitespace. */
  predicate PlainToken(t: string)
  {
    Stripped(t) && '[' !in t
  }

  /** The accessor text `[t1][t2]...` for the tokens `ts`. */
  function Brackets(ts: seq<string>): string
  {
    if ts == [] then "" else Brackets(ts[..|ts| - 1]) + ("[" + ts[|ts| - 1] + "]")
  }

  /** Written accessors are accessor text. */
  lemma {:induction false} BracketsAreAccessors(ts: seq<string>)
    ensures AccessorText(Brackets(ts))
  {
    if ts != [] {
      var b := Brackets(ts[..|ts| - 1]);
      assert b == [] || (b + ("[" + ts[|ts| - 1] + "]"))[0] == b[0];
      BracketsAreAccessors(ts[..|ts| - 1]);
    }
  }

  /** Text with a single `[` in front splits into an empty piece and the rest. */
  lemma {:induction false} OneBracket(w: string)
    requires '[' !in w
    ensures SplitOn("[" + w, '[') == ["", w]
  {
    SplitOnPieces(w, '[');
    SplitOnConcat("[", w, '[');
    assert SplitOn("[", '[') == ["", ""] by {
      assert "["[..0] == [];
      assert SplitOn([], '[') == [""];
    }
    assert "" + w == w;
  }

  /** Each token with its closing bracket. */
  function Closed(ts: seq<string>): (r: seq<string>)
    ensures |r| == |ts|
  {
    if ts == [] then [] else Closed(ts[..|ts| - 1]) + [ts[|ts| - 1] + "]"]
  }

  /** Position `k` of `Closed(ts)` is token `k` with its bracket. */
  lemma {:induction false} ClosedAt(ts: seq<string>)
    ensures forall k :: 0 <= k < |ts| ==> Closed(ts)[k] == ts[k] + "]"
  {
    if ts != [] {
      ClosedAt(ts[..|ts| - 1]);
    }
  }

  /** The pieces of `[t1][t2]...` split at `[`: an empty one, then each token
      with its closing bracket. */
  lemma {:induction false} SplitBrackets(ts: seq<string>)
    requires forall k :: 0 <= k < |ts| ==> '[' !in ts[k]
    ensures SplitOn(Brackets(ts), '[') == [""] + Closed(ts)
  {
    if ts != [] {
      var init, t := ts[..|ts| - 1], ts[|ts| - 1];
      assert forall k :: 0 <= k < |init| ==> init[k] == ts[k];
      SplitBrackets(init);
      var w := t + "]";
      assert '[' !in w by {
        assert forall i :: 0 <= i < |t| ==> w[i] == t[i];
      }
      assert "[" + t + "]" == "[" + w;
      SplitOneMore(Brackets(init), w);
      assert Closed(ts) == Closed(init) + [w];
    }
  }

  /** Appending `[` and text without `[` adds that text as one more piece. */
  lemma {:induction false} SplitOneMore(b: string, w: string)
    requires '[' !in w
    ensures SplitOn(b + ("[" + w), '[') == SplitOn(b, '[') + [w]
  {
    var x := SplitOn(b, '[');
    OneBracket(w);
    SplitOnConcat(b, "[" + w, '[');
    assert x[|x| - 1] + "" == x[|x| - 1];
  }

  /** Reading back the accessors written for plain tokens gives the tokens. */
  lemma {:induction false} AccessorsRoundTrip(ts: seq<string>)
    requires forall k :: 0 <= k < |ts| ==> PlainToken(ts[k])
    ensures Accessors(Brackets(ts)) == ts
  {
    SplitBrackets(ts);
    ClosedAt(ts);
    var pieces := SplitOn(Brackets(ts), '[');
    forall k | 1 <= k < |pieces|
      ensures Strip(pieces[k]) == pieces[k] && DropLast(pieces[k]) == ts[k - 1]
    {
      var t := ts[k - 1];
      assert pieces[k] == t + "]";
      assert Stripped(t + "]") by {
        assert t == [] || (t + "]")[0] == t[0];
      }
      assert (t + "]")[..|t|] == t;
    }
    StripAllTail(pieces);
  }

  /** A present key followed by written accessors hands its value to exactly
      those tokens. */
  lemma {:induction false} KeyWithBrackets(n: string, ts: seq<string>, next: string, f: seq<(string, Json)>)
    requires PlainName(n) && Lookup(f, n).Some?
    requires forall k :: 0 <= k < |ts| ==> PlainToken(ts[k])
    ensures Key(n + Brackets(ts), next, JObj(f)) == Array(ts, next, Lookup(f, n).value)
  {
    BracketsAreAccessors(ts);
    KeyPresent(n, Brackets(ts), next, f);
    AccessorsRoundTrip(ts);
  }

  /** A key that is only accessors, as in `[*]` or `[+][1] > ret`, has an
      empty name: it keeps the current value, whatever it is, and applies
      exactly the written tokens to it. */
  lemma {:induction false} EmptyNameKey(ts: seq<string>, next: string, v: Json)
    requires forall k :: 0 <= k < |ts| ==> PlainToken(ts[k])
    ensures Key(Brackets(ts), next, v) == Array(ts, next, v)
  {
    SplitBrackets(ts);
    var parts := KeyParts(Brackets(ts));
    assert parts[0] == Strip("") == "";
    if ts == [] {
      assert |parts| == 1;
    } else {
      ClosedAt(ts);
      AccessorsRoundTrip(ts);
      assert Tokens(parts[1..]) == Accessors(Brackets(ts));
    }
  }

  // ---------------------------------------------------------------------------
  // Levels.

  /** A level with no `&` at nesting 0 is a single segment. */
  lemma {:induction false} NoTopLevelCut(s: string)
    requires forall j :: 0 <= j < |s| && s[j] == '&' ==> Nesting(s[..j]) != 0
    ensures Segments(s) == [s]
  {
    if s != [] {
      var p, c := s[..|s| - 1], s[|s| - 1];
      assert forall j :: 0 <= j < |p| ==> p[j] == s[j] && p[..j] == s[..j];
      NoTopLevelCut(p);
      assert s == p + [c];
    }
  }

  /** A stripped level without `&` and without a leading `(` is one path,
      itself. */
  lemma {:induction false} SinglePath(p: string)
    requires p != [] && Stripped(p) && p[0] != '(' && '&' !in p
    ensures ParseLevel(p) == Success([p])
  {
    NoTopLevelCut(p);
    assert StripAll([p]) == [Strip(p)];
  }

  /** A level that is one path holds exactly when that path does. */
  lemma {:induction false} LevelOnePath(level: string, p: string, v: Json)
    requires level != "" && ParseLevel(level) == Success([p])
    ensures Level(level, v) == Path(p, v)
  {
    assert [p][1..] == [];
    assert Paths(level, [p], v) == Path(p, v);
  }

  /** A path without `>` is all key and has no remainder. */
  lemma {:induction false} PathWhole(p: string)
    requires '>' !in p
    ensures PathKey(p) == Strip(p) && PathNext(p) == ""
  {
  }

  /** The text a level is split in: the stripped level, without its outer
      parentheses when it starts with `(`. */
  function Unwrapped(l: string): string
  {
    if |l| >= 2 && l[0] == '(' then l[1..|l| - 1] else l
  }

  /** A level that parses is cut exactly at the top-level `&` characters of
      its unwrapped text, and the paths are the stripped pieces. */
  lemma {:induction false} ParseLevelCuts(level: string)
    requires ParseLevel(level).Success?
    ensures var body := Unwrapped(Strip(level));
            ParseLevel(level).value == StripAll(Segments(body)) &&
            JoinWith(Segments(body), '&') == body &&
            forall j :: 0 <= j < |body| ==>
              (j in Joints(Segments(body)) <==> body[j] == '&' && Nesting(body[..j]) == 0)
  {
    var l := Strip(level);
    var body := Unwrapped(l);
    assert ParseLevel(level).value == StripAll(Segments(body)) by {
      if l[0] == '(' {
        var inner := l[1..];
        assert inner[..|inner| - 1] == body;
      }
    }
    SegmentsSplitAtTopLevel(body);
  }

  // ---------------------------------------------------------------------------
  // Examples from the behaviour the validator is known for.

  /** `(ret > *` has no closing parenthesis: the structure is malformed, and
      the defect names the text after the `(`. */
  lemma {:induction false} UnclosedGroup()
    ensures Validate(Some("(ret > *"), JObj([("ret", JNull)])) == Malformed(UnmatchedParen("ret > *"))
  {
    var s := "(ret > *";
    assert Stripped(s);
    assert Strip(s) == s;
    assert s[1..] == "ret > *";
  }

  /** A level written as a group is split inside the group. */
  lemma {:induction false} GroupLevel(b: string)
    ensures ParseLevel("(" + b + ")") == Success(StripAll(Segments(b)))
  {
    var l := "(" + b + ")";
    assert Stripped(l);
    assert Strip(l) == l;
    var inner := l[1..];
    assert inner == b + ")";
    assert inner[..|inner| - 1] == b;
  }

  /** `a) & (b` has no `&` at nesting 0. */
  lemma {:induction false} CrossedParens()
    ensures Segments("a) & (b") == ["a) & (b"]
  {
    var body := "a) & (b";
    assert Nesting("a) ") == -1 by {
      assert "a) "[..2] == "a)";
      assert "a)"[..1] == "a";
      assert "a"[..0] == "";
    }
    forall j | 0 <= j < |body| && body[j] == '&' ensures Nesting(body[..j]) != 0 {
      assert j == 3;
      assert body[..3] == "a) ";
    }
    NoTopLevelCut(body);
  }

  /** Only the outer parentheses of a level are removed, and the check is
      only that the last character is `)`: `(a) & (b)` becomes the single
      path `a) & (b`, since its `&` is read at nesting -1. */
  lemma {:induction false} OuterParensOnly()
    ensures ParseLevel("(a) & (b)") == Success(["a) & (b"])
  {
    var body := "a) & (b";
    assert "(a) & (b)" == "(" + body + ")";
    GroupLevel(body);
    CrossedParens();
    assert Stripped(body);
    assert StripAll([body]) == [Strip(body)];
  }
}

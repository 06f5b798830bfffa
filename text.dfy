/** The Python string operations the validator relies on: str.strip,
    str.find, str.split, str.isdigit, int() and slicing. */
module Text {
  import opened Wrappers

  /** Python's str.isspace on ASCII: tab to carriage return, the four
      separators 0x1C to 0x1F, and space. */
  predicate IsSpace(c: char)
  {
    var n := c as int;
    n == 32 || 9 <= n <= 13 || 28 <= n <= 31
  }

  predicate AllSpace(s: string)
  {
    forall i :: 0 <= i < |s| ==> IsSpace(s[i])
  }

  /** Neither starts nor ends with whitespace. */
  predicate Stripped(s: string)
  {
    s == [] || (!IsSpace(s[0]) && !IsSpace(s[|s| - 1]))
  }

  /** How many whitespace characters `s` starts with. */
  function LeadingSpaces(s: string): (n: nat)
    ensures n <= |s|
    ensures forall i :: 0 <= i < n ==> IsSpace(s[i])
    ensures n < |s| ==> !IsSpace(s[n])
  {
    if s != [] && IsSpace(s[0]) then 1 + LeadingSpaces(s[1..]) else 0
  }

  /** How many whitespace characters `s` ends with. */
  function TrailingSpaces(s: string): (n: nat)
    ensures n <= |s|
    ensures forall i :: |s| - n <= i < |s| ==> IsSpace(s[i])
    ensures n < |s| ==> !IsSpace(s[|s| - 1 - n])
  {
    if s != [] && IsSpace(s[|s| - 1]) then 1 + TrailingSpaces(s[..|s| - 1]) else 0
  }

  /** `s.strip()`: the text between the leading and the trailing whitespace. */
  function Strip(s: string): (r: string)
    ensures |r| <= |s| && Stripped(r)
    ensures Stripped(s) ==> r == s
  {
    var rest := s[LeadingSpaces(s)..];
    rest[..|rest| - TrailingSpaces(rest)]
  }

  /** What `Strip` removes is whitespace, on both sides, and nothing else. */
  lemma {:induction false} StripTrims(s: string)
    ensures var r := Strip(s);
            exists i :: 0 <= i <= |s| - |r| && r == s[i..i + |r|] &&
                        AllSpace(s[..i]) && AllSpace(s[i + |r|..])
  {
    var i := LeadingSpaces(s);
    var rest := s[i..];
    var r := Strip(s);
    assert r == s[i..i + |r|];
    assert s[i + |r|..] == rest[|r|..];
    assert AllSpace(s[..i]);
  }

  /** Whitespace around stripped text is exactly what `Strip` removes. */
  lemma {:induction false} StripPadded(ws1: string, x: string, ws2: string)
    requires AllSpace(ws1) && Stripped(x) && AllSpace(ws2)
    ensures Strip(ws1 + x + ws2) == x
  {
    var s := ws1 + x + ws2;
    var i := LeadingSpaces(s);
    if x == [] {
      assert AllSpace(s) by {
        forall k | 0 <= k < |s| ensures IsSpace(s[k]) {
          if k < |ws1| { assert s[k] == ws1[k]; } else { assert s[k] == ws2[k - |ws1|]; }
        }
      }
      assert i == |s|;
    } else {
      assert s[|ws1|] == x[0];
      assert forall k :: 0 <= k < |ws1| ==> s[k] == ws1[k];
      assert i == |ws1|;
      var rest := s[i..];
      assert rest == x + ws2;
      var j := TrailingSpaces(rest);
      assert rest[|x| - 1] == x[|x| - 1];
      assert forall k :: |x| <= k < |rest| ==> rest[k] == ws2[k - |x|];
      assert j == |ws2|;
      assert rest[..|rest| - j] == x;
    }
  }

  /** `s.find(c)`, with -1 as None: the first position of `c`. */
  function Find(s: string, c: char): (r: Option<nat>)
    ensures r.Some? ==> r.value < |s| && s[r.value] == c && c !in s[..r.value]
    ensures r.None? ==> c !in s
  {
    if s == [] then None
    else if s[0] == c then Some(0)
    else
      match Find(s[1..], c)
      case None => None
      case Some(i) =>
        assert s[..i + 1] == [s[0]] + s[1..][..i];
        Some(i + 1)
  }

  /** `find` stops at the first occurrence. */
  lemma {:induction false} FindFirst(a: string, c: char, b: string)
    requires c !in a
    ensures Find(a + [c] + b, c) == Some(|a|)
  {
    var s := a + [c] + b;
    assert s[|a|] == c;
    assert s[..|a|] == a;
    assert forall j :: |a| < j <= |s| ==> s[|a|] in s[..j];
  }

  /** One character read by a left-to-right splitter: a cut opens a new, empty
      piece, any other character extends the last piece. */
  function Extend(pieces: seq<string>, ch: char, cut: bool): (r: seq<string>)
    requires |pieces| >= 1
    ensures |r| >= 1
  {
    if cut then pieces + [""]
    else pieces[..|pieces| - 1] + [pieces[|pieces| - 1] + [ch]]
  }

  /** `s.split(c)`: the pieces between the occurrences of `c`, read left to right. */
  function SplitOn(s: string, c: char): (r: seq<string>)
    ensures |r| >= 1
  {
    if s == [] then [""]
    else Extend(SplitOn(s[..|s| - 1], c), s[|s| - 1], s[|s| - 1] == c)
  }

  /** No piece holds the separator, and text without it is one piece. */
  lemma {:induction false} SplitOnPieces(s: string, c: char)
    ensures forall k :: 0 <= k < |SplitOn(s, c)| ==> c !in SplitOn(s, c)[k]
    ensures c !in s ==> SplitOn(s, c) == [s]
  {
    if s != [] {
      var p, ch := s[..|s| - 1], s[|s| - 1];
      assert s == p + [ch];
      SplitOnPieces(p, c);
      var x := SplitOn(p, c);
      if ch != c {
        var last := x[|x| - 1] + [ch];
        assert c !in last by {
          assert forall i :: 0 <= i < |x[|x| - 1]| ==> last[i] == x[|x| - 1][i];
        }
      }
    }
  }

  /** `c.join(pieces)`. */
  function JoinWith(pieces: seq<string>, c: char): string
    requires |pieces| >= 1
  {
    if |pieces| == 1 then pieces[0]
    else JoinWith(pieces[..|pieces| - 1], c) + [c] + pieces[|pieces| - 1]
  }

  /** Joining after one more character: the character, or a separator for a cut. */
  lemma {:induction false} JoinWithExtend(pieces: seq<string>, c: char, ch: char, cut: bool)
    requires |pieces| >= 1
    ensures JoinWith(Extend(pieces, ch, cut), c) == JoinWith(pieces, c) + [if cut then c else ch]
  {
    var q := Extend(pieces, ch, cut);
    if cut {
      assert q[..|q| - 1] == pieces;
      assert JoinWith(q, c) == JoinWith(pieces, c) + [c] + "";
    } else if |pieces| > 1 {
      assert q[..|q| - 1] == pieces[..|pieces| - 1];
    }
  }

  /** One step of `SplitOn`. */
  lemma {:induction false} SplitOnSnoc(s: string, ch: char, c: char)
    ensures SplitOn(s + [ch], c) == Extend(SplitOn(s, c), ch, ch == c)
  {
    assert (s + [ch])[..|s + [ch]| - 1] == s;
  }

  /** Splitting and joining again gives back the text: `c.join(s.split(c)) == s`. */
  lemma {:induction false} SplitOnJoin(s: string, c: char)
    ensures JoinWith(SplitOn(s, c), c) == s
  {
    if s != [] {
      var p, ch := s[..|s| - 1], s[|s| - 1];
      assert s == p + [ch];
      SplitOnSnoc(p, ch, c);
      SplitOnJoin(p, c);
      JoinWithExtend(SplitOn(p, c), c, ch, ch == c);
    }
  }

  /** The pieces of `a`, then those of `b`, with the last of `a` glued to the first of `b`. */
  function Fuse(x: seq<string>, y: seq<string>): seq<string>
    requires |x| >= 1 && |y| >= 1
  {
    x[..|x| - 1] + [x[|x| - 1] + y[0]] + y[1..]
  }

  lemma {:induction false} FuseExtend(x: seq<string>, y: seq<string>, ch: char, cut: bool)
    requires |x| >= 1 && |y| >= 1
    ensures Fuse(x, Extend(y, ch, cut)) == Extend(Fuse(x, y), ch, cut)
  {
    var z := Fuse(x, y);
    var w := Extend(y, ch, cut);
    if cut {
      assert w[1..] == y[1..] + [""];
    } else if |y| == 1 {
      assert z[..|z| - 1] == x[..|x| - 1];
      assert x[|x| - 1] + y[0] + [ch] == x[|x| - 1] + w[0];
    } else {
      assert z[..|z| - 1] == x[..|x| - 1] + [x[|x| - 1] + y[0]] + y[1..|y| - 1];
      assert w[1..] == y[1..|y| - 1] + [y[|y| - 1] + [ch]];
    }
  }

  /** Splitting a concatenation: the last piece of `a` and the first of `b` fuse. */
  lemma {:induction false} SplitOnConcat(a: string, b: string, c: char)
    ensures SplitOn(a + b, c) == Fuse(SplitOn(a, c), SplitOn(b, c))
  {
    var x := SplitOn(a, c);
    if b == [] {
      assert a + b == a;
      assert x[|x| - 1] + "" == x[|x| - 1];
      assert x[..|x| - 1] + [x[|x| - 1]] == x;
    } else {
      var q, ch := b[..|b| - 1], b[|b| - 1];
      assert a + b == (a + q) + [ch];
      assert b == q + [ch];
      SplitOnConcat(a, q, c);
      SplitOnSnoc(a + q, ch, c);
      SplitOnSnoc(q, ch, c);
      FuseExtend(x, SplitOn(q, c), ch, ch == c);
    }
  }

  /** `t.isdigit()` on ASCII text. */
  predicate IsDigits(t: string)
  {
    |t| > 0 && forall i :: 0 <= i < |t| ==> '0' <= t[i] <= '9'
  }

  /** `int(t)` on a string of decimal digits. */
  function ParseNat(t: string): nat
    requires forall i :: 0 <= i < |t| ==> '0' <= t[i] <= '9'
  {
    if t == [] then 0
    else 10 * ParseNat(t[..|t| - 1]) + (t[|t| - 1] as int - '0' as int)
  }

  /** `a[0:-1]`: everything but the last character, and "" for "". */
  function DropLast(a: string): string
  {
    if a == [] then [] else a[..|a| - 1]
  }

  /** Every piece stripped. */
  function StripAll(ps: seq<string>): seq<string>
  {
    seq(|ps|, k requires 0 <= k < |ps| => Strip(ps[k]))
  }
}

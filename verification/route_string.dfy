/** The `-`-separated string form of a route: Python's `"-".join` and `str.split("-")`. */
module RouteString {

  const SEPARATOR: char := '-'

  /** No piece of a route contains the separator. */
  predicate NoSeparator(codes: seq<string>)
  {
    forall i :: 0 <= i < |codes| ==> SEPARATOR !in codes[i]
  }

  /** `"-".join(codes)`: the codes with one separator between neighbours. */
  function Join(codes: seq<string>): (s: string)
    ensures |codes| == 0 ==> s == ""
    ensures |codes| > 0 ==> codes[0] <= s
  {
    if |codes| == 0 then ""
    else if |codes| == 1 then codes[0]
    else Join(codes[..|codes| - 1]) + [SEPARATOR] + codes[|codes| - 1]
  }

  /** `s.split("-")`: the maximal separator-free pieces of `s`, always at least one. */
  function Split(s: string): (pieces: seq<string>)
    ensures |pieces| >= 1
    ensures NoSeparator(pieces)
    ensures |pieces| == 1 <==> SEPARATOR !in s
  {
    if |s| == 0 then [""]
    else
      var p := Split(s[..|s| - 1]);
      var c := s[|s| - 1];
      assert s == s[..|s| - 1] + [c];
      if c == SEPARATOR then p + [""]
      else p[..|p| - 1] + [p[|p| - 1] + [c]]
  }

  /** Appending a separator-free tail after a separator adds exactly one piece. */
  lemma {:induction false} SplitAppend(x: string, y: string)
    requires SEPARATOR !in y
    ensures Split(x + [SEPARATOR] + y) == Split(x) + [y]
    decreases |y|
  {
    if |y| == 0 {
      assert x + [SEPARATOR] + y == x + [SEPARATOR];
      assert (x + [SEPARATOR])[..|x|] == x;
    } else {
      var y' := y[..|y| - 1];
      var s := x + [SEPARATOR] + y;
      assert s[..|s| - 1] == x + [SEPARATOR] + y';
      SplitAppend(x, y');
      assert y == y' + [y[|y| - 1]];
    }
  }

  /** A separator-free string splits into itself. */
  lemma {:induction false} SplitSingle(y: string)
    requires SEPARATOR !in y
    ensures Split(y) == [y]
    decreases |y|
  {
    if |y| > 0 {
      SplitSingle(y[..|y| - 1]);
      assert y == y[..|y| - 1] + [y[|y| - 1]];
    }
  }

  /** Splitting undoes joining, for a non-empty list of separator-free codes. */
  lemma {:induction false} SplitJoin(codes: seq<string>)
    requires |codes| > 0 && NoSeparator(codes)
    ensures Split(Join(codes)) == codes
    decreases |codes|
  {
    if |codes| == 1 {
      SplitSingle(codes[0]);
    } else {
      var init := codes[..|codes| - 1];
      SplitJoin(init);
      SplitAppend(Join(init), codes[|codes| - 1]);
      assert init + [codes[|codes| - 1]] == codes;
    }
  }

  /** Joining one more piece adds a separator and the piece. */
  lemma JoinSnoc(p: seq<string>, x: string)
    requires |p| > 0
    ensures Join(p + [x]) == Join(p) + [SEPARATOR] + x
  {
    assert (p + [x])[..|p|] == p;
  }

  /** Extending the last piece by a character extends the joined string by it. */
  lemma ExtendLastPiece(init: seq<string>, last: string, c: char)
    ensures Join(init + [last + [c]]) == Join(init + [last]) + [c]
  {
    if |init| == 0 {
      assert init + [last + [c]] == [last + [c]];
      assert init + [last] == [last];
    } else {
      JoinSnoc(init, last + [c]);
      JoinSnoc(init, last);
    }
  }

  /** Joining undoes splitting, for every string. */
  lemma {:induction false} JoinSplit(s: string)
    ensures Join(Split(s)) == s
    decreases |s|
  {
    if |s| > 0 {
      var s' := s[..|s| - 1];
      var c := s[|s| - 1];
      var p := Split(s');
      JoinSplit(s');
      assert s == s' + [c];
      if c == SEPARATOR {
        calc {
          Join(Split(s));
          { SplitSeparator(s); }
          Join(p + [""]);
          { JoinSnoc(p, ""); }
          Join(p) + [SEPARATOR];
        }
      } else {
        calc {
          Join(Split(s));
          { SplitOther(s); }
          Join(p[..|p| - 1] + [p[|p| - 1] + [c]]);
          { ExtendLastPiece(p[..|p| - 1], p[|p| - 1], c); }
          Join(p[..|p| - 1] + [p[|p| - 1]]) + [c];
          { assert p[..|p| - 1] + [p[|p| - 1]] == p; }
          Join(p) + [c];
        }
      }
    }
  }

  lemma SplitSeparator(s: string)
    requires |s| > 0 && s[|s| - 1] == SEPARATOR
    ensures Split(s) == Split(s[..|s| - 1]) + [""]
  {
  }

  lemma SplitOther(s: string)
    requires |s| > 0 && s[|s| - 1] != SEPARATOR
    ensures var p := Split(s[..|s| - 1]);
      Split(s) == p[..|p| - 1] + [p[|p| - 1] + [s[|s| - 1]]]
  {
  }
}

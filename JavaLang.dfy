/**
 * The pieces of the Java runtime the permission gate relies on: absent values
 * (Java's null), the exceptions the gate can raise, and the semantics of
 * `String.split` with a one-character, non-special delimiter and no limit.
 */
module JavaLang {

  /** A reference that may be null. */
  datatype Option<+T> = None | Some(value: T)

  /** The unchecked exceptions that can escape the permission gate. */
  datatype Fault =
    | IllegalState            // JsonReader met a token of the wrong kind
    | NullPointer             // a null key or value reached a ConcurrentHashMap
    | ArrayIndexOutOfBounds   // `parts[0]` on an empty array

  /** A normal return value, or the exception thrown instead. */
  datatype Result<+T> = Success(value: T) | Failure(fault: Fault)

  /** Every character of `t` is `d`. */
  predicate AllChar(t: string, d: char) {
    forall i :: 0 <= i < |t| ==> t[i] == d
  }

  /**
   * The pieces of `s` between the occurrences of `d`, empty pieces included:
   * n occurrences of `d` give n + 1 pieces, none of which contains `d`.
   */
  function SplitAll(s: string, d: char): (r: seq<string>)
    ensures |r| >= 1
    ensures forall i :: 0 <= i < |r| ==> d !in r[i]
    decreases |s|
  {
    if |s| == 0 then [""]
    else if s[0] == d then [""] + SplitAll(s[1..], d)
    else
      var rest := SplitAll(s[1..], d);
      [[s[0]] + rest[0]] + rest[1..]
  }

  /** The pieces glued back together with `d` between neighbours. */
  function Join(parts: seq<string>, d: char): string
  {
    if |parts| == 0 then ""
    else if |parts| == 1 then parts[0]
    else parts[0] + [d] + Join(parts[1..], d)
  }

  /** Drops the empty strings at the end of `ps`, as `String.split` does. */
  function DropTrailingEmpty(ps: seq<string>): (r: seq<string>)
    ensures |r| <= |ps| && r == ps[..|r|]
    ensures forall i :: |r| <= i < |ps| ==> ps[i] == ""
    ensures |r| == 0 || r[|r| - 1] != ""
  {
    if |ps| > 0 && ps[|ps| - 1] == "" then DropTrailingEmpty(ps[..|ps| - 1]) else ps
  }

  /**
   * `s.split(d)` in Java: a string without `d` is returned whole (so "" gives
   * [""]); otherwise the pieces between the delimiters, with the empty pieces
   * at the end removed (so "a/b/" gives ["a", "b"] and "--" gives []).
   */
  function Split(s: string, d: char): (r: seq<string>)
    ensures forall i :: 0 <= i < |r| ==> d !in r[i]
  {
    if d !in s then [s] else DropTrailingEmpty(SplitAll(s, d))
  }

  /** The text of `s` before its first `d` (all of `s` when it has none). */
  function TakeUntil(s: string, d: char): string
  {
    if |s| == 0 || s[0] == d then "" else [s[0]] + TakeUntil(s[1..], d)
  }

  // ---------------------------------------------------------------------------
  // Lemmas about splitting and joining
  // ---------------------------------------------------------------------------

  lemma {:induction false} JoinConsFirst(c: char, rest: seq<string>, d: char)
    requires |rest| >= 1
    ensures Join([[c] + rest[0]] + rest[1..], d) == [c] + Join(rest, d)
  {
  }

  /** Joining the pieces of `s` with the same delimiter gives back `s`. */
  lemma {:induction false} JoinSplitAll(s: string, d: char)
    ensures Join(SplitAll(s, d), d) == s
    decreases |s|
  {
    if |s| == 0 {
    } else if s[0] == d {
      JoinSplitAll(s[1..], d);
      var rest := SplitAll(s[1..], d);
      assert ([""] + rest)[1..] == rest;
      assert s == [d] + s[1..];
    } else {
      JoinSplitAll(s[1..], d);
      JoinConsFirst(s[0], SplitAll(s[1..], d), d);
      assert s == [s[0]] + s[1..];
    }
  }

  /** Joining only empty pieces gives a run of delimiters. */
  lemma {:induction false} JoinEmpties(e: seq<string>, d: char)
    requires forall i :: 0 <= i < |e| ==> e[i] == ""
    ensures AllChar(Join(e, d), d)
  {
    if |e| > 1 {
      JoinEmpties(e[1..], d);
      assert Join(e, d) == [d] + Join(e[1..], d);
    }
  }

  /** Appending empty pieces appends only delimiters to the joined text. */
  lemma {:induction false} JoinAppendEmpties(r: seq<string>, e: seq<string>, d: char)
    requires forall i :: 0 <= i < |e| ==> e[i] == ""
    ensures |Join(r, d)| <= |Join(r + e, d)|
    ensures Join(r + e, d)[..|Join(r, d)|] == Join(r, d)
    ensures AllChar(Join(r + e, d)[|Join(r, d)|..], d)
  {
    if |r| == 0 {
      assert r + e == e;
      JoinEmpties(e, d);
    } else if |r| == 1 {
      if |e| > 0 {
        assert (r + e)[1..] == e;
        JoinEmpties(e, d);
        assert Join(r + e, d)[|Join(r, d)|..] == [d] + Join(e, d);
      } else {
        assert r + e == r;
      }
    } else {
      JoinAppendEmpties(r[1..], e, d);
      assert (r + e)[1..] == r[1..] + e;
      var head := r[0] + [d];
      assert Join(r + e, d) == head + Join(r[1..] + e, d);
      assert Join(r, d) == head + Join(r[1..], d);
      assert Join(r + e, d)[|Join(r, d)|..] == Join(r[1..] + e, d)[|Join(r[1..], d)|..];
    }
  }

  /**
   * `Split` loses nothing but trailing delimiters: joining its pieces gives a
   * prefix of `s`, and what follows that prefix is delimiters only.
   */
  lemma SplitRoundTrip(s: string, d: char)
    ensures |Join(Split(s, d), d)| <= |s|
    ensures s[..|Join(Split(s, d), d)|] == Join(Split(s, d), d)
    ensures AllChar(s[|Join(Split(s, d), d)|..], d)
  {
    if d in s {
      var all := SplitAll(s, d);
      var r := DropTrailingEmpty(all);
      assert all == r + all[|r|..];
      JoinAppendEmpties(r, all[|r|..], d);
      JoinSplitAll(s, d);
    }
  }

  /** Splitting every piece of an all-delimiter string gives empty pieces. */
  lemma {:induction false} SplitAllOfDelimiters(s: string, d: char)
    requires AllChar(s, d)
    ensures forall i :: 0 <= i < |SplitAll(s, d)| ==> SplitAll(s, d)[i] == ""
    decreases |s|
  {
    if |s| > 0 {
      SplitAllOfDelimiters(s[1..], d);
    }
  }

  /**
   * `s.split(d)` is an empty array exactly when `s` is non-empty and made of
   * delimiters only; then indexing its first element throws.
   */
  lemma SplitEmptyIff(s: string, d: char)
    ensures |Split(s, d)| == 0 <==> |s| > 0 && AllChar(s, d)
  {
    if |s| > 0 && AllChar(s, d) {
      assert s[0] == d;
      SplitAllOfDelimiters(s, d);
    }
    if |Split(s, d)| == 0 {
      SplitRoundTrip(s, d);
      assert s[|Join(Split(s, d), d)|..] == s;
    }
  }

  /** The first element of `s.split(d)`, when there is one, is the text before the first `d`. */
  lemma SplitFirst(s: string, d: char)
    requires |Split(s, d)| > 0
    ensures Split(s, d)[0] == TakeUntil(s, d)
  {
  }

  /** `TakeUntil` gives a prefix of its input that holds no delimiter. */
  lemma {:induction false} TakeUntilPrefix(s: string, d: char)
    ensures |TakeUntil(s, d)| <= |s| && TakeUntil(s, d) == s[..|TakeUntil(s, d)|]
    ensures d !in TakeUntil(s, d)
    ensures |TakeUntil(s, d)| == |s| || s[|TakeUntil(s, d)|] == d
    decreases |s|
  {
    if |s| > 0 && s[0] != d {
      TakeUntilPrefix(s[1..], d);
    }
  }

  /** A string without `d` is one piece. */
  lemma {:induction false} SplitAllUndelimited(a: string, d: char)
    requires d !in a
    ensures SplitAll(a, d) == [a]
    decreases |a|
  {
    if |a| > 0 {
      SplitAllUndelimited(a[1..], d);
      assert a == [a[0]] + a[1..];
    }
  }

  /** Splitting at one delimiter occurrence splits the two sides independently. */
  lemma {:induction false} SplitAllConcat(x: string, y: string, d: char)
    ensures SplitAll(x + [d] + y, d) == SplitAll(x, d) + SplitAll(y, d)
    decreases |x|
  {
    if |x| == 0 {
      assert x + [d] + y == [d] + y;
      assert ([d] + y)[1..] == y;
    } else {
      var s := x + [d] + y;
      assert s[0] == x[0] && s[1..] == x[1..] + [d] + y;
      SplitAllConcat(x[1..], y, d);
      var left, right := SplitAll(x[1..], d), SplitAll(y, d);
      if x[0] == d {
        assert SplitAll(s, d) == [""] + (left + right);
      } else {
        var rest := left + right;
        assert rest[0] == left[0] && rest[1..] == left[1..] + right;
        assert SplitAll(s, d) == [[x[0]] + rest[0]] + rest[1..];
      }
    }
  }

  /**
   * In `prefix/segment/file` with a non-empty last piece, `split` keeps the
   * last two pieces as they are.
   */
  lemma SplitLastTwo(prefix: string, segment: string, file: string, d: char)
    requires d !in segment && d !in file && file != ""
    ensures var parts := Split(prefix + [d] + segment + [d] + file, d);
      |parts| > 1 && parts[|parts| - 2] == segment && parts[|parts| - 1] == file
  {
    var s := prefix + [d] + segment + [d] + file;
    assert s == prefix + [d] + (segment + [d] + file);
    SplitAllConcat(prefix, segment + [d] + file, d);
    SplitAllConcat(segment, file, d);
    SplitAllUndelimited(segment, d);
    SplitAllUndelimited(file, d);
    assert s[|prefix|] == d;
    var all := SplitAll(prefix, d) + [segment, file];
    assert SplitAll(s, d) == all;
    assert DropTrailingEmpty(all) == all;
  }
}

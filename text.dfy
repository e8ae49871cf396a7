/** The few operations on Rust string slices that the link resolver relies on,
    with strings as sequences of characters. */
module Text {
  import opened Wrappers

  /** Rust's `str::starts_with`. */
  predicate StartsWith(s: string, prefix: string): (r: bool)
    ensures r <==> |prefix| <= |s| && forall i :: 0 <= i < |prefix| ==> s[i] == prefix[i]
  {
    prefix <= s
  }

  /** Rust's `str::ends_with`. */
  predicate EndsWith(s: string, suffix: string): (r: bool)
    ensures r <==> |suffix| <= |s| && forall i :: 0 <= i < |suffix| ==> s[|s| - |suffix| + i] == suffix[i]
  {
    |suffix| <= |s| && s[|s| - |suffix|..] == suffix
  }

  /** Rust's `str::find` for one character: the position of its first occurrence. */
  function FindFirst(s: string, c: char): (r: Option<nat>)
    ensures r.None? <==> c !in s
    ensures r.Some? ==> r.value < |s| && s[r.value] == c && c !in s[..r.value]
  {
    if |s| == 0 then None
    else if s[0] == c then Some(0)
    else
      match FindFirst(s[1..], c)
      case None => None
      case Some(i) =>
        assert s[..i + 1] == [s[0]] + s[1..][..i];
        Some(i + 1)
  }

  /** Rust's `str::rfind` for one character: the position of its last occurrence. */
  function FindLast(s: string, c: char): (r: Option<nat>)
    ensures r.None? <==> c !in s
    ensures r.Some? ==> r.value < |s| && s[r.value] == c && c !in s[r.value + 1..]
  {
    if |s| == 0 then None
    else if s[|s| - 1] == c then Some(|s| - 1)
    else
      var r := FindLast(s[..|s| - 1], c);
      assert s == s[..|s| - 1] + [s[|s| - 1]];
      r
  }

  /** The first occurrence of `c` in `a + [c] + b` is the one just after `a`
      when `a` holds none. */
  lemma FindFirstAfter(a: string, c: char, b: string)
    requires c !in a
    ensures FindFirst(a + [c] + b, c) == Some(|a|)
  {
    var s := a + [c] + b;
    assert s[|a|] == c;
  }

  /** The last occurrence of `c` in `a + [c] + b` is the one just after `a`
      when `b` holds none. */
  lemma FindLastBefore(a: string, c: char, b: string)
    requires c !in b
    ensures FindLast(a + [c] + b, c) == Some(|a|)
  {
    var s := a + [c] + b;
    assert s[|a|] == c;
    assert s[|a| + 1..] == b;
  }

  /** Rust's `str::split` on one separator character: the pieces between its
      occurrences, always at least one. */
  function Split(s: string, sep: char): (r: seq<string>)
    ensures |r| >= 1
    ensures forall i :: 0 <= i < |r| ==> sep !in r[i]
    decreases |s|
  {
    match FindFirst(s, sep)
    case None => [s]
    case Some(i) => [s[..i]] + Split(s[i + 1..], sep)
  }

  /** Glues pieces together with one separator between neighbours. */
  function Join(parts: seq<string>, sep: char): string {
    if |parts| == 0 then ""
    else if |parts| == 1 then parts[0]
    else parts[0] + [sep] + Join(parts[1..], sep)
  }

  /** Joining the pieces of a split gives the string back. */
  lemma {:induction false} JoinSplit(s: string, sep: char)
    ensures Join(Split(s, sep), sep) == s
    decreases |s|
  {
    match FindFirst(s, sep)
    case None =>
    case Some(i) =>
      var rest := Split(s[i + 1..], sep);
      JoinSplit(s[i + 1..], sep);
      calc {
        Join(Split(s, sep), sep);
        Join([s[..i]] + rest, sep);
        { assert ([s[..i]] + rest)[1..] == rest; }
        s[..i] + [sep] + Join(rest, sep);
        s[..i] + [sep] + s[i + 1..];
        { assert s == s[..i] + [sep] + s[i + 1..]; }
        s;
      }
  }

  /** Splitting a join of separator-free pieces gives the pieces back. */
  lemma {:induction false} SplitJoin(parts: seq<string>, sep: char)
    requires |parts| >= 1
    requires forall i :: 0 <= i < |parts| ==> sep !in parts[i]
    ensures Split(Join(parts, sep), sep) == parts
  {
    if |parts| == 1 {
      assert Join(parts, sep) == parts[0];
      assert FindFirst(parts[0], sep).None?;
    } else {
      var first := parts[0];
      var rest := Join(parts[1..], sep);
      var s := first + [sep] + rest;
      assert Join(parts, sep) == s;
      FindFirstAfter(first, sep, rest);
      assert s[..|first|] == first;
      assert s[|first| + 1..] == rest;
      assert Split(s, sep) == [first] + Split(rest, sep);
      assert forall i :: 0 <= i < |parts[1..]| ==> sep !in parts[1..][i] by {
        forall i | 0 <= i < |parts[1..]|
          ensures sep !in parts[1..][i]
        {
          assert parts[1..][i] == parts[i + 1];
        }
      }
      SplitJoin(parts[1..], sep);
      assert parts == [first] + parts[1..];
    }
  }

  /** Splitting two strings glued by one separator gives the pieces of the
      first followed by the pieces of the second. */
  lemma {:induction false} SplitAround(a: string, sep: char, b: string)
    ensures Split(a + [sep] + b, sep) == Split(a, sep) + Split(b, sep)
    decreases |a|
  {
    if sep !in a {
      SplitAfterPlain(a + [sep] + b, a, sep, b);
      assert Split(a, sep) == [a];
    } else {
      var i := FindFirst(a, sep).value;
      var front, tail := a[..i], a[i + 1..];
      assert a == front + [sep] + tail;
      SplitAround(tail, sep, b);
      SplitAfterPlain(a, front, sep, tail);
      Regroup(a, front, tail, sep, b);
      SplitAfterPlain(a + [sep] + b, front, sep, tail + [sep] + b);
      ConcatAssoc([front], Split(tail, sep), Split(b, sep));
    }
  }

  /** A string that starts with a separator-free piece and a separator splits
      into that piece followed by the pieces of the rest. */
  lemma SplitAfterPlain(s: string, front: string, sep: char, rest: string)
    requires sep !in front && s == front + [sep] + rest
    ensures Split(s, sep) == [front] + Split(rest, sep)
  {
    FindFirstAfter(front, sep, rest);
    SplitFirst(s, sep, |front|);
    assert s[..|front|] == front;
    assert s[|front| + 1..] == rest;
  }

  /** One step of `Split`: the piece before the first separator, then the rest split. */
  lemma SplitFirst(s: string, sep: char, i: nat)
    requires FindFirst(s, sep) == Some(i)
    ensures Split(s, sep) == [s[..i]] + Split(s[i + 1..], sep)
  {
  }

  /** Regrouping `front + sep + tail` followed by `sep + b`. */
  lemma Regroup(a: string, front: string, tail: string, sep: char, b: string)
    requires a == front + [sep] + tail
    ensures a + [sep] + b == front + [sep] + (tail + [sep] + b)
  {
  }

  /** Concatenation is associative. */
  lemma ConcatAssoc<T>(x: seq<T>, y: seq<T>, z: seq<T>)
    ensures (x + y) + z == x + (y + z)
  {
  }

  /** A join of non-empty pieces starts with the first character of the first piece. */
  lemma JoinHead(parts: seq<string>, sep: char)
    requires |parts| >= 1 && |parts[0]| >= 1
    ensures |Join(parts, sep)| >= 1 && Join(parts, sep)[0] == parts[0][0]
  {
  }
}

/**
 * String helpers shared by the issuance run and the port-80 filter:
 * prefix test (`str::starts_with`) and splitting on one separator
 * character (`str::split`), with its inverse `Join`.
 */
module Text {

  predicate StartsWith(s: string, prefix: string)
  {
    |prefix| <= |s| && s[..|prefix|] == prefix
  }

  /** The pieces `s.split(sep)` yields, in order: never empty, none holds `sep`. */
  function Split(s: string, sep: char): (parts: seq<string>)
    ensures |parts| >= 1
    ensures forall i :: 0 <= i < |parts| ==> sep !in parts[i]
    decreases |s|
  {
    if s == [] then [[]]
    else
      var rest := Split(s[1..], sep);
      if s[0] == sep then [[]] + rest
      else [[s[0]] + rest[0]] + rest[1..]
  }

  /** The pieces glued back together with `sep` between neighbours. */
  function Join(parts: seq<string>, sep: char): string
    requires |parts| >= 1
    decreases |parts|
  {
    if |parts| == 1 then parts[0] else parts[0] + [sep] + Join(parts[1..], sep)
  }

  function Last<T>(s: seq<T>): T
    requires |s| >= 1
  {
    s[|s| - 1]
  }

  /** Splitting loses nothing: joining the pieces gives the string back. */
  lemma {:induction false} JoinSplit(s: string, sep: char)
    ensures Join(Split(s, sep), sep) == s
    decreases |s|
  {
    if s != [] {
      JoinSplit(s[1..], sep);
      var rest := Split(s[1..], sep);
      if s[0] == sep {
        assert s == [sep] + s[1..];
      } else if |rest| == 1 {
        assert s == [s[0]] + s[1..];
      } else {
        assert Join(rest, sep) == rest[0] + [sep] + Join(rest[1..], sep);
        assert s == [s[0]] + s[1..];
      }
    }
  }

  /** A piece free of `sep`, followed by more text, is the first piece. */
  lemma {:induction false} SplitPrefix(x: string, tail: string, sep: char)
    requires sep !in x
    ensures Split(x + tail, sep) == [x + Split(tail, sep)[0]] + Split(tail, sep)[1..]
    decreases |x|
  {
    if x != [] {
      var st := Split(tail, sep);
      assert (x + tail)[0] == x[0] && (x + tail)[1..] == x[1..] + tail;
      SplitPrefix(x[1..], tail, sep);
      var rest := Split(x[1..] + tail, sep);
      assert rest[0] == x[1..] + st[0] && rest[1..] == st[1..];
      assert Split(x + tail, sep) == [[x[0]] + rest[0]] + rest[1..];
      assert [x[0]] + (x[1..] + st[0]) == x + st[0];
    } else {
      var st := Split(tail, sep);
      assert x + tail == tail && x + st[0] == st[0];
      assert [st[0]] + st[1..] == st;
    }
  }

  /** Joining pieces free of `sep` and splitting again gives the pieces back. */
  lemma {:induction false} SplitJoin(parts: seq<string>, sep: char)
    requires |parts| >= 1
    requires forall i :: 0 <= i < |parts| ==> sep !in parts[i]
    ensures Split(Join(parts, sep), sep) == parts
    decreases |parts|
  {
    if |parts| == 1 {
      SplitPrefix(parts[0], [], sep);
      assert parts[0] + [] == parts[0];
    } else {
      var tail := [sep] + Join(parts[1..], sep);
      assert Join(parts, sep) == parts[0] + tail;
      SplitPrefix(parts[0], tail, sep);
      SplitJoin(parts[1..], sep);
      assert tail[1..] == Join(parts[1..], sep);
      assert Split(tail, sep) == [[]] + parts[1..];
      assert parts[0] + [] == parts[0];
      assert [parts[0]] + parts[1..] == parts;
    }
  }

  /** The last piece of `prefix + [sep] + t` is `t` when `t` holds no `sep`. */
  lemma LastPieceAfterSeparator(prefix: string, t: string, sep: char)
    requires sep !in t
    ensures Last(Split(prefix + [sep] + t, sep)) == t
  {
    var parts := Split(prefix, sep);
    var joined := parts + [t];
    assert forall i :: 0 <= i < |joined| ==> sep !in joined[i] by {
      forall i | 0 <= i < |joined| ensures sep !in joined[i] {
        if i < |parts| { assert joined[i] == parts[i]; }
      }
    }
    JoinAppend(parts, t, sep);
    JoinSplit(prefix, sep);
    SplitJoin(joined, sep);
  }

  lemma {:induction false} JoinAppend(parts: seq<string>, t: string, sep: char)
    requires |parts| >= 1
    ensures Join(parts + [t], sep) == Join(parts, sep) + [sep] + t
    decreases |parts|
  {
    if |parts| == 1 {
      assert (parts + [t])[1..] == [t];
    } else {
      assert (parts + [t])[1..] == parts[1..] + [t];
      JoinAppend(parts[1..], t, sep);
    }
  }
}

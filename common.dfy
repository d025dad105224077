/** Small shared vocabulary: optional values, results with an error, bytes,
    and the handful of Python `str` operations the application relies on
    (`rfind`, `find`, `split` with an explicit separator, and its inverse `join`). */
module Common {

  datatype Option<+T> = None | Some(value: T)

  datatype Result<+T, +E> = Ok(value: T) | Err(error: E)

  /** An unsigned 8-bit value, as numpy's `uint8` and Python's `bytes` elements. */
  type uint8 = x: int | 0 <= x < 256

  /** Python's `s.rfind(ch)`: the index of the last occurrence of `ch`, or -1. */
  function RFind(s: string, ch: char): (r: int)
    ensures -1 <= r < |s|
    ensures r >= 0 ==> s[r] == ch && forall j :: r < j < |s| ==> s[j] != ch
    ensures r == -1 <==> ch !in s
  {
    if |s| == 0 then -1
    else if s[|s| - 1] == ch then |s| - 1
    else RFind(s[..|s| - 1], ch)
  }

  /** Python's `s.find(ch)`: the index of the first occurrence of `ch`, or -1. */
  function Find(s: string, ch: char): (r: int)
    ensures -1 <= r < |s|
    ensures r >= 0 ==> s[r] == ch && ch !in s[..r]
    ensures r == -1 <==> ch !in s
  {
    if |s| == 0 then -1
    else if s[0] == ch then 0
    else var k := Find(s[1..], ch); if k < 0 then -1 else k + 1
  }

  /** Python's `s.split(sep)` with an explicit one-character separator:
      the maximal separator-free pieces between separators, in order. */
  function Split(s: string, sep: char): (parts: seq<string>)
    ensures |parts| >= 1
    ensures forall k :: 0 <= k < |parts| ==> sep !in parts[k]
    ensures sep !in s ==> parts == [s]
    decreases |s|
  {
    var i := Find(s, sep);
    if i < 0 then [s] else [s[..i]] + Split(s[i + 1..], sep)
  }

  /** Python's `sep.join(parts)`. */
  function Join(parts: seq<string>, sep: string): string
  {
    if |parts| == 0 then ""
    else if |parts| == 1 then parts[0]
    else parts[0] + sep + Join(parts[1..], sep)
  }

  /** Joining the pieces of a split with the same separator gives back the string. */
  lemma {:induction false} JoinSplit(s: string, sep: char)
    ensures Join(Split(s, sep), [sep]) == s
    decreases |s|
  {
    var i := Find(s, sep);
    if i >= 0 {
      var head, rest := s[..i], s[i + 1..];
      assert s == head + [sep] + rest by { assert s[i] == sep; }
      var tail := Split(rest, sep);
      assert Split(s, sep) == [head] + tail;
      JoinSplit(rest, sep);
      JoinCons(head, tail, [sep]);
    }
  }

  lemma JoinCons(head: string, tail: seq<string>, sep: string)
    requires |tail| >= 1
    ensures Join([head] + tail, sep) == head + sep + Join(tail, sep)
  {
    assert ([head] + tail)[1..] == tail;
  }

  /** The first piece of a split is everything before the first separator. */
  lemma SplitHead(a: string, sep: char, rest: string)
    requires sep !in a
    ensures Split(a + [sep] + rest, sep)[0] == a
  {
    var s := a + [sep] + rest;
    assert s[|a|] == sep;
    assert s[..|a|] == a;
    assert Find(s, sep) == |a|;
  }

  /** The piece at index 1 of a split is the text between the first separator and
      the next one (or the end): whatever follows `a + sep` when `a` holds no separator. */
  lemma SplitSecond(a: string, sep: char, rest: string)
    requires sep !in a
    ensures |Split(a + [sep] + rest, sep)| >= 2
    ensures Split(a + [sep] + rest, sep)[1] == Split(rest, sep)[0]
    ensures Split(a + [sep] + rest, sep)[1] == rest[..if Find(rest, sep) < 0 then |rest| else Find(rest, sep)]
  {
    var s := a + [sep] + rest;
    assert s[|a|] == sep;
    assert s[..|a|] == a;
    assert Find(s, sep) == |a|;
    assert s[|a| + 1..] == rest;
  }
}

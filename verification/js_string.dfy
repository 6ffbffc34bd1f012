/**
 * The parts of JavaScript's string library that the timestamp converters use:
 * `replace` with a one-character pattern, `split` on a one-character
 * separator, and `padStart`.
 */
module JsString {

  /**
   * The search for the first `c` in `s` that both `replace` and `split`
   * perform: its position, or `|s|`, one past the end, when there is none.
   */
  function Find(s: string, c: char): (i: nat)
    ensures i <= |s|
    ensures i < |s| ==> s[i] == c
  {
    if s == [] then 0 else if s[0] == c then 0 else 1 + Find(s[1..], c)
  }

  /** `Find` stops at the first `c`, and runs off the end exactly when there is none. */
  lemma {:induction false} FindFirst(s: string, c: char)
    ensures c !in s[..Find(s, c)]
    ensures Find(s, c) == |s| <==> c !in s
  {
    if s != [] && s[0] != c {
      FindFirst(s[1..], c);
      assert s[..Find(s, c)] == [s[0]] + s[1..][..Find(s[1..], c)];
      assert s == [s[0]] + s[1..];
    }
  }

  /** Where `Find` lands in a string whose first `c` follows a `c`-free prefix. */
  lemma {:induction false} FindAfter(prefix: string, rest: string, c: char)
    requires c !in prefix && rest != [] && rest[0] == c
    ensures Find(prefix + rest, c) == |prefix|
  {
    var s := prefix + rest;
    if prefix != [] {
      assert s[0] == prefix[0];
      assert s[1..] == prefix[1..] + rest;
      FindAfter(prefix[1..], rest, c);
    }
  }

  /**
   * `s.replace(from, to)` with a one-character string pattern: only the first
   * occurrence of `from` becomes `to`; every other character is kept.
   */
  function ReplaceFirst(s: string, from: char, to: char): (r: string)
    ensures |r| == |s|
  {
    var i := Find(s, from);
    if i == |s| then s else s[..i] + [to] + s[i + 1..]
  }

  /** A string without `from` is left as it is. */
  lemma ReplaceFirstAbsent(s: string, from: char, to: char)
    requires from !in s
    ensures ReplaceFirst(s, from, to) == s
  {
    FindFirst(s, from);
  }

  /**
   * What `ReplaceFirst` does to a string that holds `from`, written around
   * its first occurrence: that one character becomes `to`, and the text
   * before and after it is kept.
   */
  lemma ReplaceFirstAt(prefix: string, rest: string, from: char, to: char)
    requires from !in prefix
    ensures ReplaceFirst(prefix + [from] + rest, from, to) == prefix + [to] + rest
  {
    var s := prefix + [from] + rest;
    assert s == prefix + ([from] + rest);
    FindAfter(prefix, [from] + rest, from);
    assert s[..|prefix|] == prefix && s[|prefix| + 1..] == rest;
  }

  /** Replacing the first `from` with `to` leaves the count of any third character alone. */
  lemma ReplaceFirstKeeps(s: string, from: char, to: char, c: char)
    requires c != from && c != to
    ensures multiset(ReplaceFirst(s, from, to))[c] == multiset(s)[c]
  {
    var i := Find(s, from);
    if i < |s| {
      var pre, post := s[..i], s[i + 1..];
      assert s == pre + [from] + post;
      CountAround(pre, from, post, c);
      CountAround(pre, to, post, c);
    }
  }

  /** The inverse of `Split`: the parts with `sep` between each neighbouring pair. */
  function Join(parts: seq<string>, sep: char): (s: string)
    requires 1 <= |parts|
  {
    if |parts| == 1 then parts[0] else parts[0] + [sep] + Join(parts[1..], sep)
  }

  /**
   * `s.split(sep)` with a one-character separator: the maximal runs between
   * separators, as many parts as there are separators plus one (so an empty
   * string gives one empty part).
   */
  function Split(s: string, sep: char): (parts: seq<string>)
    ensures 1 <= |parts|
    decreases |s|
  {
    var i := Find(s, sep);
    if i == |s| then [s] else [s[..i]] + Split(s[i + 1..], sep)
  }

  /** Joining undoes splitting, and no part holds the separator. */
  lemma {:induction false} JoinSplit(s: string, sep: char)
    ensures Join(Split(s, sep), sep) == s
    ensures forall k :: 0 <= k < |Split(s, sep)| ==> sep !in Split(s, sep)[k]
    decreases |s|
  {
    var i := Find(s, sep);
    FindFirst(s, sep);
    if i < |s| {
      var rest := Split(s[i + 1..], sep);
      JoinSplit(s[i + 1..], sep);
      assert ([s[..i]] + rest)[1..] == rest;
      assert s == s[..i] + [sep] + s[i + 1..];
    }
  }

  /** Splitting undoes joining, whenever no part contains the separator. */
  lemma {:induction false} SplitJoin(parts: seq<string>, sep: char)
    requires 1 <= |parts|
    requires forall k :: 0 <= k < |parts| ==> sep !in parts[k]
    ensures Split(Join(parts, sep), sep) == parts
  {
    if |parts| == 1 {
      FindFirst(parts[0], sep);
    } else {
      SplitJoin(parts[1..], sep);
      SplitAfter(parts[0], Join(parts[1..], sep), sep);
      assert parts == [parts[0]] + parts[1..];
    }
  }

  /** A separator-free head ends the first part at the first separator. */
  lemma SplitAfter(head: string, tail: string, sep: char)
    requires sep !in head
    ensures Split(head + [sep] + tail, sep) == [head] + Split(tail, sep)
  {
    var s := head + [sep] + tail;
    assert s == head + ([sep] + tail);
    FindAfter(head, [sep] + tail, sep);
    assert s[..|head|] == head;
    assert s[|head| + 1..] == tail;
  }

  /** `split` gives one part more than there are separators. */
  lemma {:induction false} SplitCount(s: string, sep: char)
    ensures |Split(s, sep)| == multiset(s)[sep] + 1
    decreases |s|
  {
    var i := Find(s, sep);
    FindFirst(s, sep);
    if i < |s| {
      var pre, post := s[..i], s[i + 1..];
      assert s == pre + [sep] + post;
      SplitCount(post, sep);
      SplitAfter(pre, post, sep);
      CountAround(pre, sep, post, sep);
    } else {
      assert multiset(s)[sep] == 0;
    }
  }

  /** How often `c` occurs in `pre + [x] + post`, counted piece by piece. */
  lemma CountAround(pre: string, x: char, post: string, c: char)
    ensures multiset(pre + [x] + post)[c] == multiset(pre)[c] + multiset([x])[c] + multiset(post)[c]
  {
    assert multiset(pre + [x] + post) == multiset(pre) + multiset([x]) + multiset(post);
  }

  /**
   * `s.padStart(width, fill)` with a one-character fill: `fill` is put in
   * front of `s` until the result is at least `width` long. Padding only ever
   * adds characters; a string already that long comes back unchanged.
   */
  function PadStart(s: string, width: nat, fill: char): (r: string)
    ensures |r| == if |s| < width then width else |s|
    decreases width - |s|
  {
    if |s| < width then PadStart([fill] + s, width, fill) else s
  }

  /** What padding adds is a run of `fill` in front; `s` itself is kept whole at the end. */
  lemma {:induction false} PadStartShape(s: string, width: nat, fill: char)
    ensures var r := PadStart(s, width, fill);
      r == r[..|r| - |s|] + s && forall i :: 0 <= i < |r| - |s| ==> r[i] == fill
    decreases width - |s|
  {
    if |s| < width {
      var r := PadStart(s, width, fill);
      var t := [fill] + s;
      PadStartShape(t, width, fill);
      var pad := r[..|r| - |t|];
      assert r == pad + t;
      assert r[..|r| - |s|] == pad + [fill];
      assert r == (pad + [fill]) + s;
    }
  }
}

/** Joining and splitting strings on a separator character. */
module Text {

  /** The parts with one `sep` between neighbours, as Array.prototype.join
      builds them: no parts give the empty string, one part gives itself. */
  function Join(parts: seq<string>, sep: char): (s: string)
    ensures |parts| > 0 ==> |parts[0]| <= |s| && s[..|parts[0]|] == parts[0]
  {
    if |parts| == 0 then []
    else if |parts| == 1 then parts[0]
    else parts[0] + [sep] + Join(parts[1..], sep)
  }

  /** The position of the first `c` in `s`, or |s| when there is none. */
  function IndexOf(s: string, c: char): (k: nat)
    ensures k <= |s|
    ensures k < |s| ==> s[k] == c
    ensures forall j :: 0 <= j < k ==> s[j] != c
  {
    if s == [] then 0
    else if s[0] == c then 0
    else 1 + IndexOf(s[1..], c)
  }

  /** The pieces of `s` between occurrences of `sep`; always at least one. */
  function Split(s: string, sep: char): (parts: seq<string>)
    ensures |parts| > 0
    ensures forall i :: 0 <= i < |parts| ==> sep !in parts[i]
    decreases |s|
  {
    var k := IndexOf(s, sep);
    if k == |s| then [s]
    else [s[..k]] + Split(s[k + 1..], sep)
  }

  lemma AppendAssoc(a: string, b: string, c: string)
    ensures (a + b) + c == a + (b + c)
  {
  }

  /** A character that is not the separator and occurs in no part does not
      occur in the joined string either. */
  lemma {:induction false} JoinAvoids(parts: seq<string>, sep: char, c: char)
    requires c != sep
    requires forall i :: 0 <= i < |parts| ==> c !in parts[i]
    ensures c !in Join(parts, sep)
  {
    if |parts| > 1 {
      JoinAvoids(parts[1..], sep, c);
    }
  }

  /** Joining a part in front of a non-empty list puts one separator
      between it and the rest. */
  lemma JoinCons(head: string, tail: seq<string>, sep: char)
    requires |tail| > 0
    ensures Join([head] + tail, sep) == head + [sep] + Join(tail, sep)
  {
    assert ([head] + tail)[1..] == tail;
  }

  /** Joining a part in front of any list: the part alone, or the part, one
      separator and the rest. */
  lemma JoinFront(head: string, tail: seq<string>, sep: char)
    ensures Join([head] + tail, sep) == head + (if tail == [] then [] else [sep] + Join(tail, sep))
  {
    if tail == [] {
      assert [head] + tail == [head];
    } else {
      JoinCons(head, tail, sep);
    }
  }

  /** Splitting a joined string recovers the parts, provided no part
      contains the separator. */
  lemma {:induction false} SplitJoin(parts: seq<string>, sep: char)
    requires |parts| > 0
    requires forall i :: 0 <= i < |parts| ==> sep !in parts[i]
    ensures Split(Join(parts, sep), sep) == parts
  {
    if |parts| > 1 {
      var head, rest := parts[0], Join(parts[1..], sep);
      var s := head + [sep] + rest;
      assert s[|head|] == sep;
      assert IndexOf(s, sep) == |head|;
      assert s[..|head|] == head;
      assert s[|head| + 1..] == rest;
      SplitJoin(parts[1..], sep);
    }
  }

  /** Joining the pieces of a split restores the string. */
  lemma {:induction false} JoinSplit(s: string, sep: char)
    ensures Join(Split(s, sep), sep) == s
    decreases |s|
  {
    var k := IndexOf(s, sep);
    if k < |s| {
      var rest := s[k + 1..];
      JoinSplit(rest, sep);
      assert Split(s, sep) == [s[..k]] + Split(rest, sep);
      JoinCons(s[..k], Split(rest, sep), sep);
      assert s == s[..k] + [sep] + rest;
    }
  }

  /** The three pieces of a concatenation can be cut back out of it. */
  lemma SliceThree(a: string, b: string, c: string)
    ensures (a + b + c)[..|a|] == a
    ensures (a + b + c)[|a|..|a| + |b|] == b
    ensures (a + b + c)[|a| + |b|..] == c
  {
  }

  /** A joined list of non-empty parts ends with the last character of its
      last part, so no separator trails it. */
  lemma {:induction false} JoinEnds(parts: seq<string>, sep: char)
    requires |parts| > 0 && |parts[|parts| - 1]| > 0
    ensures |Join(parts, sep)| > 0
    ensures Join(parts, sep)[|Join(parts, sep)| - 1] == parts[|parts| - 1][|parts[|parts| - 1]| - 1]
  {
    if |parts| > 1 {
      JoinEnds(parts[1..], sep);
    }
  }

  /** Five parts joined: the layout of one CSV line of five cells. */
  lemma Join5(a: string, b: string, c: string, d: string, e: string, sep: char)
    ensures Join([a, b, c, d, e], sep) == a + [sep] + b + [sep] + c + [sep] + d + [sep] + e
  {
    var parts := [a, b, c, d, e];
    assert parts[1..] == [b, c, d, e];
    assert parts[2..] == [c, d, e];
    assert parts[3..] == [d, e];
    assert parts[4..] == [e];
    assert Join([d, e], sep) == d + [sep] + e;
    assert Join([c, d, e], sep) == c + [sep] + d + [sep] + e;
    assert Join([b, c, d, e], sep) == b + [sep] + c + [sep] + d + [sep] + e;
  }
}

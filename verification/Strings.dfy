/** Splitting and joining strings on a separator character, as Go's strings package does. */
module Strings {
  // The pieces between the separators; always at least one.
  function Split(s: string, sep: char): (r: seq<string>)
    ensures r != []
  {
    if s == "" then [""]
    else
      var n := |s| - 1;
      var r := Split(s[..n], sep);
      if s[n] == sep then r + [""] else r[..|r| - 1] + [r[|r| - 1] + [s[n]]]
  }

  function Join(parts: seq<string>, sep: char): string {
    if parts == [] then ""
    else if |parts| == 1 then parts[0]
    else Join(parts[..|parts| - 1], sep) + [sep] + parts[|parts| - 1]
  }

  function Count(s: string, c: char): nat {
    if s == "" then 0 else Count(s[..|s| - 1], c) + if s[|s| - 1] == c then 1 else 0
  }

  function Without(s: string, c: char): string {
    if s == "" then "" else Without(s[..|s| - 1], c) + if s[|s| - 1] == c then "" else [s[|s| - 1]]
  }

  function Concat<T>(parts: seq<seq<T>>): seq<T> {
    if parts == [] then [] else Concat(parts[..|parts| - 1]) + parts[|parts| - 1]
  }

  lemma ConcatAppend<T>(a: seq<seq<T>>, p: seq<T>)
    ensures Concat(a + [p]) == Concat(a) + p
  {
    assert (a + [p])[..|a|] == a;
  }

  lemma SplitSnoc(s: string, c: char, sep: char)
    ensures var r := Split(s, sep);
      Split(s + [c], sep) == if c == sep then r + [""] else r[..|r| - 1] + [r[|r| - 1] + [c]]
  {
    assert (s + [c])[..|s|] == s;
  }

  lemma JoinSnoc(parts: seq<string>, last: string, c: char, sep: char)
    ensures Join(parts + [last] + [""], sep) == Join(parts + [last], sep) + [sep]
    ensures Join(parts + [last + [c]], sep) == Join(parts + [last], sep) + [c]
  {
    assert (parts + [last] + [""])[..|parts| + 1] == parts + [last];
    assert (parts + [last])[..|parts|] == parts == (parts + [last + [c]])[..|parts|];
  }

  lemma ConcatSnoc(parts: seq<string>, last: string, c: char)
    ensures Concat(parts + [last] + [""]) == Concat(parts + [last])
    ensures Concat(parts + [last + [c]]) == Concat(parts + [last]) + [c]
  {
    ConcatAppend(parts + [last], "");
    ConcatAppend(parts, last);
    ConcatAppend(parts, last + [c]);
  }

  lemma {:induction false} PiecesHoldNoSeparator(s: string, sep: char)
    ensures forall i :: 0 <= i < |Split(s, sep)| ==> sep !in Split(s, sep)[i]
  {
    if s != "" {
      hide Split;
      var n := |s| - 1;
      var r, q := Split(s[..n], sep), Split(s, sep);
      PiecesHoldNoSeparator(s[..n], sep);
      assert s == s[..n] + [s[n]];
      SplitSnoc(s[..n], s[n], sep);
      forall i | 0 <= i < |q|
        ensures sep !in q[i]
      {
        if s[n] == sep {
          assert q[i] == if i < |r| then r[i] else "";
        } else {
          assert q[i] == if i < |r| - 1 then r[i] else r[i] + [s[n]];
        }
      }
    }
  }

  // The pieces hold no separator, and joining them restores the string.
  lemma {:induction false} JoinOfSplit(s: string, sep: char)
    ensures Join(Split(s, sep), sep) == s
    ensures forall i :: 0 <= i < |Split(s, sep)| ==> sep !in Split(s, sep)[i]
    ensures |Split(s, sep)| == Count(s, sep) + 1
    ensures Concat(Split(s, sep)) == Without(s, sep)
  {
    PiecesHoldNoSeparator(s, sep);
    if s != "" {
      hide Split, Join, Concat;
      var n := |s| - 1;
      var r := Split(s[..n], sep);
      var front, last := r[..|r| - 1], r[|r| - 1];
      JoinOfSplit(s[..n], sep);
      assert s == s[..n] + [s[n]];
      assert r == front + [last];
      SplitSnoc(s[..n], s[n], sep);
      JoinSnoc(front, last, s[n], sep);
      ConcatSnoc(front, last, s[n]);
    }
  }

  // Splitting is the only way to cut a string into pieces without separators that join to it.
  lemma {:induction false} SplitOfJoin(parts: seq<string>, sep: char)
    requires parts != []
    requires forall i :: 0 <= i < |parts| ==> sep !in parts[i]
    ensures Split(Join(parts, sep), sep) == parts
    decreases |parts|, |parts[|parts| - 1]|
  {
    hide Split, Join;
    var n := |parts| - 1;
    var front, last := parts[..n], parts[n];
    assert parts == front + [last];
    if last == "" {
      if n == 0 {
        OnePiece(sep);
      } else {
        var m := n - 1;
        assert front == front[..m] + [front[m]];
        SplitOfJoin(front, sep);
        JoinSnoc(front[..m], front[m], sep, sep);
        SplitSnoc(Join(front, sep), sep, sep);
      }
    } else {
      var m := |last| - 1;
      var short := front + [last[..m]];
      assert sep !in last && last == last[..m] + [last[m]];
      SplitOfJoin(short, sep);
      JoinSnoc(front, last[..m], last[m], sep);
      SplitSnoc(Join(short, sep), last[m], sep);
      assert short[..n] == front;
    }
  }

  lemma OnePiece(sep: char)
    ensures Join([""], sep) == "" && Split("", sep) == [""]
  {
  }

  // Splitting a concatenation: the last piece of the one and the first of the other become one.
  lemma {:induction false} SplitAppend(a: string, b: string, sep: char)
    ensures var p := Split(a, sep);
      Split(a + b, sep) == p[..|p| - 1] + Split(p[|p| - 1] + b, sep)
  {
    hide Split;
    var p := Split(a, sep);
    var last := p[|p| - 1];
    if b == "" {
      JoinOfSplit(a, sep);
      assert a + b == a && last + b == last;
      assert Join([last], sep) == last;
      SplitOfJoin([last], sep);
    } else {
      var n := |b| - 1;
      SplitAppend(a, b[..n], sep);
      assert a + b == a + b[..n] + [b[n]];
      assert last + b == last + b[..n] + [b[n]];
      SplitSnoc(a + b[..n], b[n], sep);
      SplitSnoc(last + b[..n], b[n], sep);
    }
  }

  lemma {:induction false} CountAppend(a: string, b: string, c: char)
    ensures Count(a + b, c) == Count(a, c) + Count(b, c)
    ensures Without(a + b, c) == Without(a, c) + Without(b, c)
  {
    if b == "" {
      assert a + b == a;
    } else {
      assert (a + b)[..|a + b| - 1] == a + b[..|b| - 1];
      CountAppend(a, b[..|b| - 1], c);
    }
  }

  lemma {:induction false} CountIsMembership(s: string, c: char)
    ensures Count(s, c) == 0 <==> c !in s
  {
    if s != "" {
      CountIsMembership(s[..|s| - 1], c);
      assert s == s[..|s| - 1] + [s[|s| - 1]];
    }
  }
}

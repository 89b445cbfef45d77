/** Python's str.split and str.join for a one-character separator. */
module Text {

  /** s.startswith(c) for a one-character prefix. */
  predicate StartsWith(s: string, c: char) {
    |s| > 0 && s[0] == c
  }

  /** s[1:], which is empty when s is empty. */
  function Tail(s: string): (t: string)
    ensures |s| > 0 ==> s == [s[0]] + t
    ensures |s| == 0 ==> t == ""
  {
    if |s| == 0 then "" else s[1..]
  }

  /** s.split(sep): the maximal runs between separators, empty runs included. */
  function Split(s: string, sep: char): (parts: seq<string>)
    ensures |parts| >= 1
    ensures forall k :: 0 <= k < |parts| ==> sep !in parts[k]
  {
    if |s| == 0 then [""]
    else
      var rest := Split(s[1..], sep);
      if s[0] == sep then [""] + rest
      else [[s[0]] + rest[0]] + rest[1..]
  }

  /** sep.join(parts). */
  function Join(parts: seq<string>, sep: char): (j: string)
    ensures |parts| > 0 ==> parts[0] <= j
    ensures |parts| > 1 ==> sep in j
  {
    if |parts| == 0 then ""
    else if |parts| == 1 then parts[0]
    else parts[0] + [sep] + Join(parts[1..], sep)
  }

  /** Joining the parts of a split gives back the string. */
  lemma {:induction false} JoinSplit(s: string, sep: char)
    ensures Join(Split(s, sep), sep) == s
  {
    if |s| > 0 {
      JoinSplit(s[1..], sep);
      var rest := Split(s[1..], sep);
      if s[0] != sep && |rest| > 1 {
        assert Join(rest, sep) == rest[0] + [sep] + Join(rest[1..], sep);
        assert ([[s[0]] + rest[0]] + rest[1..])[1..] == rest[1..];
      }
      if s[0] == sep {
        assert ([""] + rest)[1..] == rest;
      }
    }
  }

  /** A string without the separator splits into itself alone. */
  lemma {:induction false} SplitNoSep(w: string, sep: char)
    requires sep !in w
    ensures Split(w, sep) == [w]
  {
    if |w| > 0 {
      SplitNoSep(w[1..], sep);
      assert [w[0]] + w[1..] == w;
    }
  }

  /** A separator-free word followed by the separator splits off as the first part. */
  lemma {:induction false} SplitPrefix(w: string, sep: char, s: string)
    requires sep !in w
    ensures Split(w + [sep] + s, sep) == [w] + Split(s, sep)
  {
    var t := w + [sep] + s;
    if |w| == 0 {
      assert t[1..] == s;
    } else {
      assert t[1..] == w[1..] + [sep] + s;
      SplitPrefix(w[1..], sep, s);
      assert [w[0]] + w[1..] == w;
    }
  }

  /** Splitting a join of separator-free parts gives back the parts. */
  lemma {:induction false} SplitJoin(parts: seq<string>, sep: char)
    requires |parts| >= 1
    requires forall k :: 0 <= k < |parts| ==> sep !in parts[k]
    ensures Split(Join(parts, sep), sep) == parts
  {
    if |parts| == 1 {
      SplitNoSep(parts[0], sep);
    } else {
      SplitPrefix(parts[0], sep, Join(parts[1..], sep));
      SplitJoin(parts[1..], sep);
      assert [parts[0]] + parts[1..] == parts;
    }
  }

  /** A split yields more than one part exactly when the separator occurs. */
  lemma {:induction false} SplitManyIffSep(s: string, sep: char)
    ensures |Split(s, sep)| > 1 <==> sep in s
  {
    if |s| > 0 {
      SplitManyIffSep(s[1..], sep);
      assert s == [s[0]] + s[1..];
    }
  }

  /** A character other than the separator that is in no part is not in the join. */
  lemma {:induction false} JoinAvoids(parts: seq<string>, sep: char, c: char)
    requires c != sep
    requires forall k :: 0 <= k < |parts| ==> c !in parts[k]
    ensures c !in Join(parts, sep)
  {
    if |parts| > 1 {
      JoinAvoids(parts[1..], sep, c);
    }
  }
}

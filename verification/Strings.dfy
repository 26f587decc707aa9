/** The parts of Go's `strings` package that the operator uses, on ASCII. */
module Strings {
  function LowerChar(c: char): char {
    if 'A' <= c <= 'Z' then c - 'A' + 'a' else c
  }

  function ToLower(s: string): string {
    seq(|s|, i requires 0 <= i < |s| => LowerChar(s[i]))
  }

  /** The same letter, or the capital and the small one of the ASCII code, 32 places apart. */
  predicate SameLetter(c: char, d: char) {
    || c == d
    || ('A' <= c <= 'Z' && d as int == c as int + 32)
    || ('A' <= d <= 'Z' && c as int == d as int + 32)
  }

  predicate SameIgnoringCase(s: string, t: string) {
    |s| == |t| && forall i :: 0 <= i < |s| ==> SameLetter(s[i], t[i])
  }

  lemma LowerIsCaseless(s: string, t: string)
    ensures ToLower(s) == ToLower(t) <==> SameIgnoringCase(s, t)
  {
    var l, m := ToLower(s), ToLower(t);
    assert forall i :: 0 <= i < |s| ==> l[i] == LowerChar(s[i]);
    assert forall i :: 0 <= i < |t| ==> m[i] == LowerChar(t[i]);
  }

  lemma LowerOfLower(s: string, t: string)
    requires forall i :: 0 <= i < |t| ==> !('A' <= t[i] <= 'Z')
    ensures ToLower(s) == t <==> SameIgnoringCase(s, t)
  {
    LowerIsCaseless(s, t);
    assert ToLower(t) == t;
  }

  function Join(parts: seq<string>, sep: string): string {
    if |parts| == 0 then ""
    else if |parts| == 1 then parts[0]
    else parts[0] + sep + Join(parts[1..], sep)
  }

  lemma SamePrefix(prefix: string, s: string, t: string)
    ensures prefix + s == prefix + t <==> s == t
  {
    if prefix + s == prefix + t {
      assert s == (prefix + s)[|prefix|..] == (prefix + t)[|prefix|..] == t;
    }
  }

  /** Go's `strings.Split` with a separator of one character. */
  function Split(s: string, sep: char): (parts: seq<string>)
    ensures parts != []
  {
    if s == "" then [""]
    else
      var rest := Split(s[1..], sep);
      if s[0] == sep then [""] + rest else [[s[0]] + rest[0]] + rest[1..]
  }

  /** Splitting inverts joining when no part holds the separator, and gives such parts. */
  lemma {:induction false} SplitOfJoined(parts: seq<string>, sep: char)
    requires parts != [] && forall i :: 0 <= i < |parts| ==> sep !in parts[i]
    ensures Split(Join(parts, [sep]), sep) == parts
  {
    if |parts| == 1 {
      SplitOfWhole(parts[0], sep);
    } else {
      SplitOfJoined(parts[1..], sep);
      SplitAtFirst(parts[0], Join(parts[1..], [sep]), sep);
      assert parts == [parts[0]] + parts[1..];
    }
  }

  lemma {:induction false} SplitOfWhole(s: string, sep: char)
    requires sep !in s
    ensures Split(s, sep) == [s]
  {
    if s == "" {
    } else {
      SplitOfWhole(s[1..], sep);
      assert s == [s[0]] + s[1..];
    }
  }

  lemma {:induction false} SplitAtFirst(s: string, t: string, sep: char)
    requires sep !in s
    ensures Split(s + [sep] + t, sep) == [s] + Split(t, sep)
  {
    var whole := s + [sep] + t;
    if s == "" {
      assert whole[1..] == t;
    } else {
      assert whole[1..] == s[1..] + [sep] + t;
      SplitAtFirst(s[1..], t, sep);
      assert s == [s[0]] + s[1..];
    }
  }

  /** Joining inverts splitting, and no part holds the separator. */
  lemma {:induction false} JoinOfSplit(s: string, sep: char)
    ensures Join(Split(s, sep), [sep]) == s
    ensures forall i :: 0 <= i < |Split(s, sep)| ==> sep !in Split(s, sep)[i]
  {
    if s == "" {
    } else {
      JoinOfSplit(s[1..], sep);
      var rest := Split(s[1..], sep);
      if s[0] == sep {
        assert Split(s, sep)[1..] == rest;
      } else {
        assert Split(s, sep)[1..] == rest[1..];
      }
    }
  }

  /** After a separator and a space, each part but the first comes back with that space. */
  lemma {:induction false} SplitOfSpaced(parts: seq<string>, sep: char)
    requires parts != [] && forall i :: 0 <= i < |parts| ==> sep !in parts[i]
    requires sep != ' '
    ensures var back := Split(Join(parts, [sep, ' ']), sep);
      && |back| == |parts| && back[0] == parts[0]
      && forall i :: 0 < i < |parts| ==> back[i] == " " + parts[i]
  {
    if |parts| == 1 {
      SplitOfWhole(parts[0], sep);
    } else {
      var rest := Join(parts[1..], [sep, ' ']);
      assert Join(parts, [sep, ' ']) == parts[0] + [sep] + (" " + rest);
      SplitAtFirst(parts[0], " " + rest, sep);
      SplitOfSpaced(parts[1..], sep);
      assert (" " + rest)[1..] == rest;
      assert Split(" " + rest, sep)[0] == " " + parts[1];
      forall i | 0 < i < |parts| ensures Split(" " + rest, sep)[i - 1] == " " + parts[i] {
        assert parts[i] == parts[1..][i - 1];
      }
    }
  }

  /** A text splits in two exactly when it holds one separator. */
  lemma {:induction false} PartsAreSeparated(s: string, sep: char)
    ensures |Split(s, sep)| == multiset(s)[sep] + 1
  {
    if s == "" {
    } else {
      PartsAreSeparated(s[1..], sep);
      assert s == [s[0]] + s[1..];
    }
  }
}

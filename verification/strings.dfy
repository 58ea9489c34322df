/**
 * The two string operations the header parser relies on: .NET's
 * `string.Split(char)` (no options: empty fields are kept) and LINQ's
 * `Last()` over its result.
 */
module Strings {

  /** `s.Split(sep)`: the maximal runs of `s` free of `sep`, always at least one. */
  function Split(s: string, sep: char): (parts: seq<string>)
    ensures |parts| >= 1
  {
    if s == [] then [[]]
    else
      var rest := Split(s[1..], sep);
      if s[0] == sep then [[]] + rest
      else [[s[0]] + rest[0]] + rest[1..]
  }

  /** The inverse of Split: the parts with `sep` between them. */
  function Join(parts: seq<string>, sep: char): string
  {
    if |parts| == 0 then []
    else if |parts| == 1 then parts[0]
    else parts[0] + [sep] + Join(parts[1..], sep)
  }

  /** `field.Split('=').Last()`: what follows the last '=' of `field`. */
  function FieldValue(field: string): string
  {
    var parts := Split(field, '=');
    parts[|parts| - 1]
  }

  /** The reference definition behind BeforeFirst: the first position of `c`, or |s| when it does not occur. */
  function IndexOf(s: string, c: char): (r: nat)
    ensures r <= |s|
  {
    if s == [] || s[0] == c then 0 else 1 + IndexOf(s[1..], c)
  }

  /** The reference definition behind AfterLast: the last position of `c`, or -1 when it does not occur. */
  function LastIndexOf(s: string, c: char): (r: int)
    ensures -1 <= r < |s|
  {
    if s == [] then -1
    else
      var r := LastIndexOf(s[1..], c);
      if r >= 0 then r + 1 else if s[0] == c then 0 else -1
  }

  /** The text before the first `c` (all of `s` when there is none). */
  function BeforeFirst(s: string, c: char): string
  {
    s[..IndexOf(s, c)]
  }

  /** The text after the last `c` (all of `s` when there is none). */
  function AfterLast(s: string, c: char): string
  {
    s[LastIndexOf(s, c) + 1..]
  }

  /** IndexOf finds the first occurrence: `c` is at the index found and nowhere before it. */
  lemma {:induction false} IndexOfFirst(s: string, c: char)
    ensures var r := IndexOf(s, c);
      (r < |s| ==> s[r] == c) && forall i :: 0 <= i < r ==> s[i] != c
  {
    if s != [] && s[0] != c {
      IndexOfFirst(s[1..], c);
    }
  }

  /** LastIndexOf finds the last occurrence: `c` is at the index found and nowhere after it. */
  lemma {:induction false} LastIndexOfLast(s: string, c: char)
    ensures var r := LastIndexOf(s, c);
      (r >= 0 ==> s[r] == c) && forall i :: r < i < |s| ==> s[i] != c
  {
    if s != [] {
      LastIndexOfLast(s[1..], c);
    }
  }

  lemma {:induction false} JoinSplit(s: string, sep: char)
    ensures Join(Split(s, sep), sep) == s
  {
    if s != [] {
      JoinSplit(s[1..], sep);
      var rest := Split(s[1..], sep);
      if s[0] != sep && |rest| > 1 {
        assert ([s[0]] + rest[0]) + [sep] + Join(rest[1..], sep)
            == [s[0]] + (rest[0] + [sep] + Join(rest[1..], sep));
      }
    }
  }

  lemma {:induction false} SplitPartsFree(s: string, sep: char)
    ensures forall i :: 0 <= i < |Split(s, sep)| ==> sep !in Split(s, sep)[i]
  {
    if s != [] {
      SplitPartsFree(s[1..], sep);
    }
  }

  lemma {:induction false} SplitNoSep(s: string, sep: char)
    requires sep !in s
    ensures Split(s, sep) == [s]
  {
    if s != [] {
      SplitNoSep(s[1..], sep);
      assert [s[0]] + s[1..] == s;
    }
  }

  /** Splitting distributes over a separator: the parts of each side, in order. */
  lemma {:induction false} SplitAppend(a: string, b: string, sep: char)
    ensures Split(a + [sep] + b, sep) == Split(a, sep) + Split(b, sep)
  {
    var s := a + [sep] + b;
    if a == [] {
      assert s[1..] == b;
    } else {
      assert s[1..] == a[1..] + [sep] + b;
      SplitAppend(a[1..], b, sep);
    }
  }

  /** Split is the inverse of Join over separator-free parts. */
  lemma {:induction false} SplitJoin(parts: seq<string>, sep: char)
    requires |parts| >= 1
    requires forall i :: 0 <= i < |parts| ==> sep !in parts[i]
    ensures Split(Join(parts, sep), sep) == parts
  {
    if |parts| == 1 {
      SplitNoSep(parts[0], sep);
    } else {
      SplitJoin(parts[1..], sep);
      SplitAppend(parts[0], Join(parts[1..], sep), sep);
      SplitNoSep(parts[0], sep);
    }
  }

  /** The first part of a split is the text before the first separator. */
  lemma {:induction false} FirstPartBeforeFirstSep(s: string, sep: char)
    ensures Split(s, sep)[0] == BeforeFirst(s, sep)
  {
    if s != [] && s[0] != sep {
      FirstPartBeforeFirstSep(s[1..], sep);
      var k := IndexOf(s[1..], sep);
      assert s[..1 + k] == [s[0]] + s[1..][..k];
    }
  }

  /**
   * The last part of a split is the text after the last separator, and there
   * is more than one part exactly when the separator occurs.
   */
  predicate LastPartIsAfterLast(s: string, sep: char)
  {
    var parts := Split(s, sep);
    parts[|parts| - 1] == AfterLast(s, sep) && (|parts| > 1 <==> LastIndexOf(s, sep) >= 0)
  }

  // The four cases of the induction below, one lemma each so that each
  // proof sees only the slices of its own case.

  lemma LastPartOfEmpty(s: string, sep: char)
    requires s == []
    ensures LastPartIsAfterLast(s, sep)
  {
    assert Split(s, sep) == [[]];
    assert AfterLast(s, sep) == [];
  }

  lemma LastPartAfterLaterSep(s: string, sep: char)
    requires s != [] && LastIndexOf(s[1..], sep) >= 0 && LastPartIsAfterLast(s[1..], sep)
    ensures LastPartIsAfterLast(s, sep)
  {
    var r := LastIndexOf(s[1..], sep);
    assert s[r + 2..] == s[1..][r + 1..];
  }

  lemma LastPartAfterHeadSep(s: string, sep: char)
    requires s != [] && LastIndexOf(s[1..], sep) < 0 && s[0] == sep && LastPartIsAfterLast(s[1..], sep)
    ensures LastPartIsAfterLast(s, sep)
  {
    assert s[1..] == s[1..][0..];
  }

  lemma LastPartWithoutSep(s: string, sep: char)
    requires s != [] && LastIndexOf(s[1..], sep) < 0 && s[0] != sep && LastPartIsAfterLast(s[1..], sep)
    ensures LastPartIsAfterLast(s, sep)
  {
  }

  lemma {:induction false} LastPartAfterLastSep(s: string, sep: char)
    ensures LastPartIsAfterLast(s, sep)
  {
    if s == [] {
      LastPartOfEmpty(s, sep);
    } else {
      LastPartAfterLastSep(s[1..], sep);
      if LastIndexOf(s[1..], sep) >= 0 {
        LastPartAfterLaterSep(s, sep);
      } else if s[0] == sep {
        LastPartAfterHeadSep(s, sep);
      } else {
        LastPartWithoutSep(s, sep);
      }
    }
  }

  /** `Split('=').Last()` is the text after the last '=', or the whole field when it has none. */
  lemma FieldValueAfterLastEquals(field: string)
    ensures FieldValue(field) == AfterLast(field, '=')
    ensures '=' !in field ==> FieldValue(field) == field
  {
    LastPartAfterLastSep(field, '=');
    LastIndexOfLast(field, '=');
  }

  /** The value of a `key=value` field whose value holds no '='. */
  lemma FieldValueOfPair(key: string, value: string)
    requires '=' !in value
    ensures FieldValue(key + "=" + value) == value
  {
    SplitAppend(key, value, '=');
    SplitNoSep(value, '=');
  }
}

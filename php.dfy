/**
 * The few PHP language rules the framework relies on: `empty()` on strings,
 * `trim`, `explode`/`implode`, nullable values, and a Result type standing
 * for a thrown exception.
 */
module Php {

  datatype Option<+T> = None | Some(value: T)

  /** A value or the exception the PHP code throws instead. */
  datatype Result<+T, +E> = Ok(value: T) | Err(error: E)

  /** A PHP scalar that may be null (array values, memory values). */
  datatype Value = Null | Text(s: string)

  /** PHP `empty()` on a string: only "" and "0" are empty. */
  predicate Empty(s: string)
  {
    s == "" || s == "0"
  }

  /** The characters PHP's `trim` strips by default: " \t\n\r\0\x0B". */
  predicate IsTrimmed(c: char)
  {
    c == ' ' || c == '\t' || c == '\n' || c == '\r' || c == '\0' || c == '\U{000B}'
  }

  /** PHP `rtrim` with the default character list. */
  function TrimRight(s: string): (r: string)
    ensures |r| <= |s| && r == s[..|r|]
    ensures forall i | |r| <= i < |s| :: IsTrimmed(s[i])
    ensures r == [] || !IsTrimmed(r[|r| - 1])
  {
    if s == [] || !IsTrimmed(s[|s| - 1]) then s else TrimRight(s[..|s| - 1])
  }

  /** PHP `ltrim` with the default character list. */
  function TrimLeft(s: string): (r: string)
    ensures |r| <= |s| && r == s[|s| - |r|..]
    ensures forall i | 0 <= i < |s| - |r| :: IsTrimmed(s[i])
    ensures r == [] || !IsTrimmed(r[0])
  {
    if s == [] || !IsTrimmed(s[0]) then s else TrimLeft(s[1..])
  }

  /** PHP `trim`. */
  function Trim(s: string): string
  {
    TrimRight(TrimLeft(s))
  }

  /** A text that starts with a character `trim` keeps loses nothing on the left. */
  lemma TrimKeepsHead(s: string)
    requires s != [] && !IsTrimmed(s[0])
    ensures Trim(s) == TrimRight(s)
  {
  }

  /** Appending a text that ends in a kept character: `rtrim` leaves it whole. */
  lemma TrimRightKeeps(s: string)
    requires s != [] && !IsTrimmed(s[|s| - 1])
    ensures TrimRight(s) == s
  {
  }

  /** rtrim(a + b) when b is nothing but trimmed characters. */
  lemma {:induction false} TrimRightDropsTail(a: string, b: string)
    requires forall i | 0 <= i < |b| :: IsTrimmed(b[i])
    ensures TrimRight(a + b) == TrimRight(a)
  {
    if b != [] {
      assert (a + b)[..|a + b| - 1] == a + b[..|b| - 1];
      TrimRightDropsTail(a, b[..|b| - 1]);
    } else {
      assert a + b == a;
    }
  }

  /** `rtrim` keeps a prefix that ends in a kept character. */
  lemma TrimRightKeepsHead(s: string, k: nat)
    requires 0 < k <= |s| && !IsTrimmed(s[k - 1])
    ensures |TrimRight(s)| >= k && TrimRight(s)[..k] == s[..k]
  {
  }

  /** Appending text leaves a prefix of the original in place. */
  lemma PrefixAppend(t: string, u: string, n: nat)
    requires n <= |t|
    ensures (t + u)[..n] == t[..n]
  {
    assert forall i | 0 <= i < n :: (t + u)[i] == t[i];
  }

  /** rtrim(a + b) when b ends in a kept character. */
  lemma TrimRightKeepsPrefix(a: string, b: string)
    requires b != [] && !IsTrimmed(b[|b| - 1])
    ensures TrimRight(a + b) == a + b
  {
  }

  /** Appends "/" unless the path already ends in "/"; an empty path becomes "/". */
  function WithTrailingSlash(p: string): (r: string)
    ensures r != [] && r[|r| - 1] == '/'
    ensures p != [] && p[|p| - 1] == '/' ==> r == p
    ensures (p == [] || p[|p| - 1] != '/') ==> r == p + "/"
  {
    if p != [] && p[|p| - 1] == '/' then p else p + "/"
  }

  /** PHP `implode(sep, parts)`. */
  function Join(parts: seq<string>, sep: string): string
  {
    if |parts| == 0 then ""
    else if |parts| == 1 then parts[0]
    else Join(parts[..|parts| - 1], sep) + sep + parts[|parts| - 1]
  }

  /** PHP `explode(sep, s)` for a one-character separator: never an empty list. */
  function Split(s: string, sep: char): (parts: seq<string>)
    ensures |parts| >= 1
  {
    if |s| == 0 then [""]
    else
      var rest := Split(s[..|s| - 1], sep);
      if s[|s| - 1] == sep then rest + [""]
      else rest[..|rest| - 1] + [rest[|rest| - 1] + [s[|s| - 1]]]
  }

  /** No part of `explode`'s result contains the separator. */
  lemma {:induction false} SplitPartsFree(s: string, sep: char)
    ensures var parts := Split(s, sep);
      forall i, j | 0 <= i < |parts| && 0 <= j < |parts[i]| :: parts[i][j] != sep
  {
    if |s| > 0 {
      var init := s[..|s| - 1];
      var c := s[|s| - 1];
      assert s == init + [c];
      SplitPartsFree(init, sep);
      SplitSnoc(init, c, sep);
      var rest := Split(init, sep);
      var parts := Split(s, sep);
      forall i, j | 0 <= i < |parts| && 0 <= j < |parts[i]|
        ensures parts[i][j] != sep
      {
        if i < |rest| - 1 {
          assert parts[i] == rest[i];
        } else if c == sep {
          if i == |rest| - 1 {
            assert parts[i] == rest[i];
          }
        } else {
          assert parts[i] == rest[|rest| - 1] + [c];
        }
      }
    }
  }

  /** `implode` undoes `explode`: joining the parts with the separator gives the text back. */
  lemma {:induction false} JoinSplit(s: string, sep: char)
    ensures Join(Split(s, sep), [sep]) == s
  {
    if |s| > 0 {
      var init := s[..|s| - 1];
      var rest := Split(init, sep);
      var last := s[|s| - 1];
      assert s == init + [last];
      SplitSnoc(init, last, sep);
      JoinSplit(init, sep);
      if last == sep {
        JoinEmptyLast(rest, [sep]);
      } else {
        JoinExtendLast(rest, [sep], last);
      }
    }
  }

  /** An empty last part adds just the separator. */
  lemma JoinEmptyLast(parts: seq<string>, sep: string)
    requires |parts| >= 1
    ensures Join(parts + [""], sep) == Join(parts, sep) + sep
  {
    var parts' := parts + [""];
    assert parts'[..|parts'| - 1] == parts;
  }

  /** Appending a character to the last part appends it to the joined text. */
  lemma JoinExtendLast(parts: seq<string>, sep: string, c: char)
    requires |parts| >= 1
    ensures Join(parts[..|parts| - 1] + [parts[|parts| - 1] + [c]], sep) == Join(parts, sep) + [c]
  {
    var parts' := parts[..|parts| - 1] + [parts[|parts| - 1] + [c]];
    if |parts| > 1 {
      assert parts'[..|parts'| - 1] == parts[..|parts| - 1];
    }
  }

  /** `explode` undoes `implode` when no part contains the separator. */
  lemma {:induction false} SplitJoin(parts: seq<string>, sep: char)
    requires |parts| >= 1
    requires forall i, j | 0 <= i < |parts| && 0 <= j < |parts[i]| :: parts[i][j] != sep
    ensures Split(Join(parts, [sep]), sep) == parts
  {
    if |parts| == 1 {
      SplitNoSep(parts[0], sep);
    } else {
      var init := parts[..|parts| - 1];
      var last := parts[|parts| - 1];
      assert forall i, j | 0 <= i < |init| && 0 <= j < |init[i]| :: init[i][j] != sep by {
        forall i, j | 0 <= i < |init| && 0 <= j < |init[i]|
          ensures init[i][j] != sep
        {
          assert init[i] == parts[i];
        }
      }
      SplitJoin(init, sep);
      assert parts == init + [last];
      SplitJoinStep(init, last, sep);
    }
  }

  /** The inductive step of SplitJoin: one more part at the end. */
  lemma SplitJoinStep(init: seq<string>, last: string, sep: char)
    requires |init| >= 1 && forall j | 0 <= j < |last| :: last[j] != sep
    requires Split(Join(init, [sep]), sep) == init
    ensures Split(Join(init + [last], [sep]), sep) == init + [last]
  {
    var parts := init + [last];
    assert parts[..|parts| - 1] == init;
    assert Join(parts, [sep]) == Join(init, [sep]) + [sep] + last;
    SplitAppend(Join(init, [sep]), last, sep);
  }

  /** A text without the separator explodes into itself alone. */
  lemma {:induction false} SplitNoSep(s: string, sep: char)
    requires forall j | 0 <= j < |s| :: s[j] != sep
    ensures Split(s, sep) == [s]
  {
    if |s| > 0 {
      SplitNoSep(s[..|s| - 1], sep);
      assert s[..|s| - 1] + [s[|s| - 1]] == s;
    }
  }

  /** Exploding a + sep + b, where b has no separator, adds b as the last part. */
  lemma {:induction false} SplitAppend(a: string, b: string, sep: char)
    requires forall j | 0 <= j < |b| :: b[j] != sep
    ensures Split(a + [sep] + b, sep) == Split(a, sep) + [b]
  {
    if |b| == 0 {
      assert a + [sep] + b == a + [sep];
      SplitSnoc(a, sep, sep);
    } else {
      var b' := b[..|b| - 1];
      var c := b[|b| - 1];
      assert a + [sep] + b == (a + [sep] + b') + [c];
      SplitAppend(a, b', sep);
      SplitSnoc(a + [sep] + b', c, sep);
      var rest := Split(a, sep) + [b'];
      assert rest[..|rest| - 1] == Split(a, sep);
      assert b' + [c] == b;
    }
  }

  /** Exploding a text one character longer: a separator opens a new part, anything else extends the last. */
  lemma SplitSnoc(s: string, c: char, sep: char)
    ensures var rest := Split(s, sep);
      Split(s + [c], sep) == if c == sep then rest + [""] else rest[..|rest| - 1] + [rest[|rest| - 1] + [c]]
  {
    assert (s + [c])[..|s|] == s;
  }
}

/**
 The string primitives the application relies on, as Python defines them for
 the ASCII range: `str.split` on a one-character separator, `str.strip` with no
 argument, `str.lower`, `str.join`, and the recurring pattern of splitting a string,
 stripping every piece and keeping only the pieces that are not blank.
 */
module Text {

  /** Python's `str.isspace` restricted to ASCII: space, tab, line feed,
      vertical tab, form feed, carriage return and the separators 0x1C-0x1F. */
  predicate IsSpace(c: char)
  {
    c == ' ' || (9 <= c as int <= 13) || (28 <= c as int <= 31)
  }

  predicate IsUpper(c: char)
  {
    'A' <= c <= 'Z'
  }

  /** A string with no whitespace at either end. */
  predicate IsTrimmed(s: string)
  {
    s == [] || (!IsSpace(s[0]) && !IsSpace(s[|s| - 1]))
  }

  predicate AllSpace(s: string)
  {
    forall k :: 0 <= k < |s| ==> IsSpace(s[k])
  }

  /** `r` is the slice `s[i..j]`, and everything around it is whitespace. */
  predicate CutFrom(s: string, i: int, j: int, r: string)
  {
    && 0 <= i <= j <= |s| && r == s[i..j]
    && (forall k :: 0 <= k < i ==> IsSpace(s[k]))
    && (forall k :: j <= k < |s| ==> IsSpace(s[k]))
  }

  /** Number of occurrences of `c` in `s`. */
  function Count(s: string, c: char): (n: nat)
    ensures n <= |s|
    ensures n == 0 <==> c !in s
  {
    if s == [] then 0
    else (if s[0] == c then 1 else 0) + Count(s[1..], c)
  }

  lemma {:induction false} CountAppend(a: string, b: string, c: char)
    ensures Count(a + b, c) == Count(a, c) + Count(b, c)
  {
    if a == [] {
      assert a + b == b;
    } else {
      assert (a + b)[0] == a[0] && (a + b)[1..] == a[1..] + b;
      CountAppend(a[1..], b, c);
    }
  }

  // ---------------------------------------------------------------------------
  // str.split(sep) for a one-character separator

  /** The pieces of `s` between occurrences of `sep`, as `s.split(sep)` returns
      them: there is always at least one piece and empty pieces are kept. */
  function Split(s: string, sep: char): (r: seq<string>)
    ensures |r| >= 1
  {
    if s == [] then [[]]
    else
      var rest := Split(s[1..], sep);
      if s[0] == sep then [[]] + rest
      else [[s[0]] + rest[0]] + rest[1..]
  }

  /** There is one more piece than there are separators, and no piece
      contains the separator. */
  lemma {:induction false} SplitPieces(s: string, sep: char)
    ensures |Split(s, sep)| == Count(s, sep) + 1
    ensures forall i :: 0 <= i < |Split(s, sep)| ==> sep !in Split(s, sep)[i]
  {
    if s != [] {
      SplitPieces(s[1..], sep);
      var rest := Split(s[1..], sep);
      if s[0] != sep {
        assert sep !in [s[0]] + rest[0];
      }
    }
  }

  /** Total length of the parts. */
  function TotalLength(parts: seq<string>): nat
  {
    if parts == [] then 0 else |parts[0]| + TotalLength(parts[1..])
  }

  /** `sep.join(parts)`: the parts in order with one separator between each
      neighbouring pair; it is empty for no parts and otherwise starts with
      the first part. */
  function JoinWith(parts: seq<string>, sep: string): (r: string)
    ensures parts == [] ==> r == []
    ensures parts != [] ==> |parts[0]| <= |r| && r[..|parts[0]|] == parts[0]
  {
    if |parts| == 0 then []
    else if |parts| == 1 then parts[0]
    else parts[0] + sep + JoinWith(parts[1..], sep)
  }

  /** The join is as long as the parts plus one separator fewer than there
      are parts. */
  lemma {:induction false} JoinLength(parts: seq<string>, sep: string)
    requires parts != []
    ensures |JoinWith(parts, sep)| == TotalLength(parts) + (|parts| - 1) * |sep|
  {
    if |parts| > 1 {
      JoinLength(parts[1..], sep);
    }
  }

  /** Joining the pieces with the separator gives back the original string:
      `sep.join(s.split(sep)) == s`. */
  lemma {:induction false} JoinSplit(s: string, sep: char)
    ensures JoinWith(Split(s, sep), [sep]) == s
  {
    if s != [] {
      var rest := Split(s[1..], sep);
      JoinSplit(s[1..], sep);
      if s[0] != sep && |rest| > 1 {
        assert JoinWith(rest, [sep]) == rest[0] + [sep] + JoinWith(rest[1..], [sep]);
      }
    }
  }

  /** A string without the separator is a single piece. */
  lemma {:induction false} SplitNoSep(s: string, sep: char)
    requires sep !in s
    ensures Split(s, sep) == [s]
  {
    if s != [] {
      assert s[0] in s;
      assert forall c :: c in s[1..] ==> c in s;
      SplitNoSep(s[1..], sep);
      assert [s[0]] + s[1..] == s;
    }
  }

  /** A character other than the separator sticks to the first piece of what
      follows it. */
  lemma SplitCons(c: char, s: string, sep: char)
    requires c != sep
    ensures Split([c] + s, sep) == [[c] + Split(s, sep)[0]] + Split(s, sep)[1..]
  {
    assert ([c] + s)[0] == c && ([c] + s)[1..] == s;
  }

  /** Splitting distributes over a separator: the pieces of `a + sep + b` are
      the pieces of `a` followed by the pieces of `b`. */
  lemma {:induction false} SplitAppend(a: string, b: string, sep: char)
    ensures Split(a + [sep] + b, sep) == Split(a, sep) + Split(b, sep)
  {
    var s := a + [sep] + b;
    if a == [] {
      assert s[0] == sep && s[1..] == b;
    } else {
      assert s[0] == a[0] && s[1..] == a[1..] + [sep] + b;
      SplitAppend(a[1..], b, sep);
    }
  }

  // ---------------------------------------------------------------------------
  // str.strip()

  /** `s.lstrip()`: the longest suffix of `s` that does not start with whitespace. */
  function TrimStart(s: string): (r: string)
    ensures |r| <= |s| && r == s[|s| - |r|..]
    ensures forall k :: 0 <= k < |s| - |r| ==> IsSpace(s[k])
    ensures r != [] ==> !IsSpace(r[0])
  {
    if s != [] && IsSpace(s[0]) then TrimStart(s[1..]) else s
  }

  /** `s.rstrip()`: the longest prefix of `s` that does not end with whitespace. */
  function TrimEnd(s: string): (r: string)
    ensures |r| <= |s| && r == s[..|r|]
    ensures forall k :: |r| <= k < |s| ==> IsSpace(s[k])
    ensures r != [] ==> !IsSpace(r[|r| - 1])
  {
    if s != [] && IsSpace(s[|s| - 1]) then TrimEnd(s[..|s| - 1]) else s
  }

  /** `s.strip()`: `s` with the whitespace removed from both ends. The result
      is trimmed, every character of it comes from `s`, and it is empty exactly
      when `s` is all whitespace. */
  function Strip(s: string): (r: string)
    ensures IsTrimmed(r)
    ensures |r| <= |s|
    ensures forall c :: c in r ==> c in s
    ensures r == [] <==> AllSpace(s)
  {
    TrimBoth(s);
    TrimEnd(TrimStart(s))
  }

  lemma TrimBoth(s: string)
    ensures var r := TrimEnd(TrimStart(s));
      && IsTrimmed(r)
      && (forall c :: c in r ==> c in s)
      && (r == [] <==> AllSpace(s))
  {
    var front := TrimStart(s);
    var r := TrimEnd(front);
    assert r != [] ==> r[0] == front[0];
    assert forall c :: c in r ==> c in front;
    assert forall c :: c in front ==> c in s;
  }

  /** `s.strip()` is the slice of `s` left once the whitespace on both sides
      is cut away. */
  lemma StripCut(s: string)
    ensures exists i, j :: CutFrom(s, i, j, Strip(s))
  {
    StripUnfold(s);
    TrimCut(s);
  }

  /** Stripping a string that is already trimmed changes nothing. */
  lemma StripTrimmed(s: string)
    requires IsTrimmed(s)
    ensures Strip(s) == s
  {
    if s != [] {
      assert TrimStart(s) == s;
    }
  }

  /** Stripping twice is stripping once. */
  lemma StripIdempotent(s: string)
    ensures Strip(Strip(s)) == Strip(s)
  {
    StripTrimmed(Strip(s));
  }

  lemma StripUnfold(s: string)
    ensures Strip(s) == TrimEnd(TrimStart(s))
  {
  }

  /** The slice `s.strip()` starts where `s.lstrip()` starts. */
  lemma TrimCut(s: string)
    ensures CutFrom(s, |s| - |TrimStart(s)|, |s| - |TrimStart(s)| + |TrimEnd(TrimStart(s))|, TrimEnd(TrimStart(s)))
  {
    CutTwice(s, TrimStart(s), TrimEnd(TrimStart(s)));
  }

  /** Cutting a whitespace prefix and then a whitespace suffix leaves a slice
      with whitespace on both sides. */
  lemma CutTwice(s: string, front: string, r: string)
    requires |front| <= |s| && front == s[|s| - |front|..]
    requires forall k :: 0 <= k < |s| - |front| ==> IsSpace(s[k])
    requires |r| <= |front| && r == front[..|r|]
    requires forall k :: |r| <= k < |front| ==> IsSpace(front[k])
    ensures CutFrom(s, |s| - |front|, |s| - |front| + |r|, r)
  {
    var i := |s| - |front|;
    forall k | i + |r| <= k < |s| ensures IsSpace(s[k]) {
      assert s[k] == front[k - i];
    }
    assert s[i..i + |r|] == front[..|r|];
  }

  // ---------------------------------------------------------------------------
  // str.lower()

  function LowerChar(c: char): char
  {
    if IsUpper(c) then (c as int + 32) as char else c
  }

  /** `s.lower()` on ASCII letters: no upper-case letter survives, every other
      character is left as it was, and each upper-case letter becomes its
      lower-case partner. */
  function Lower(s: string): (r: string)
    ensures |r| == |s|
    ensures forall i :: 0 <= i < |s| ==> !IsUpper(r[i])
    ensures forall i :: 0 <= i < |s| && !IsUpper(s[i]) ==> r[i] == s[i]
    ensures forall i :: 0 <= i < |s| && IsUpper(s[i]) ==> r[i] as int == s[i] as int + 32
  {
    if s == [] then [] else [LowerChar(s[0])] + Lower(s[1..])
  }

  /** Lower-casing keeps a string trimmed, and keeps each character that is
      not a letter exactly where it was: it is in the result iff it is in `s`. */
  lemma LowerKeeps(s: string, c: char)
    requires !IsUpper(c) && !('a' <= c <= 'z')
    ensures IsTrimmed(s) ==> IsTrimmed(Lower(s))
    ensures (c in Lower(s)) <==> (c in s)
  {
    var r := Lower(s);
    if c in s {
      var i :| 0 <= i < |s| && s[i] == c;
      assert r[i] == c;
    }
    if c in r {
      var i :| 0 <= i < |r| && r[i] == c;
    }
  }

  // ---------------------------------------------------------------------------
  // split, strip every piece, drop the blank ones

  /** The stripped piece, or nothing when the piece is blank: no field means
      the piece was all whitespace, and a field is the piece stripped. */
  function KeepOne(piece: string): (r: seq<string>)
    ensures |r| <= 1
    ensures |r| == 0 ==> AllSpace(piece)
    ensures |r| == 1 ==> r[0] == Strip(piece) && 0 < |r[0]| <= |piece| && IsTrimmed(r[0])
  {
    var stripped := Strip(piece);
    if stripped == [] then [] else [stripped]
  }

  /** Strips every piece and drops the pieces that strip to nothing, keeping
      the order of the rest. */
  function KeepStripped(pieces: seq<string>): (r: seq<string>)
    ensures |r| <= |pieces|
    ensures forall i :: 0 <= i < |r| ==> r[i] != [] && IsTrimmed(r[i])
  {
    if pieces == [] then []
    else
      var head, tail := KeepOne(pieces[0]), KeepStripped(pieces[1..]);
      assert |head| == 1 ==> head[0] != [] && IsTrimmed(head[0]);
      head + tail
  }

  lemma {:induction false} KeepStrippedAppend(a: seq<string>, b: seq<string>)
    ensures KeepStripped(a + b) == KeepStripped(a) + KeepStripped(b)
  {
    if a != [] {
      assert (a + b)[0] == a[0] && (a + b)[1..] == a[1..] + b;
      KeepStrippedAppend(a[1..], b);
      assert KeepOne(a[0]) + (KeepStripped(a[1..]) + KeepStripped(b))
          == (KeepOne(a[0]) + KeepStripped(a[1..])) + KeepStripped(b);
    } else {
      assert a + b == b;
    }
  }

  /** If no piece holds `c`, no kept piece does. */
  lemma {:induction false} KeepStrippedAvoids(pieces: seq<string>, c: char)
    requires forall i :: 0 <= i < |pieces| ==> c !in pieces[i]
    ensures forall i :: 0 <= i < |KeepStripped(pieces)| ==> c !in KeepStripped(pieces)[i]
  {
    if pieces != [] {
      KeepStrippedAvoids(pieces[1..], c);
    }
  }

  /** The non-blank fields of `s` separated by `sep`, each stripped of
      surrounding whitespace. */
  function TrimmedFields(s: string, sep: char): (r: seq<string>)
    ensures |r| <= Count(s, sep) + 1
    ensures forall i :: 0 <= i < |r| ==> r[i] != [] && IsTrimmed(r[i]) && sep !in r[i]
  {
    SplitPieces(s, sep);
    KeepStrippedAvoids(Split(s, sep), sep);
    KeepStripped(Split(s, sep))
  }

  /** Fields keep their left-to-right order: the fields of `a + sep + b` are
      those of `a` followed by those of `b`. */
  lemma TrimmedFieldsAppend(a: string, b: string, sep: char)
    ensures TrimmedFields(a + [sep] + b, sep) == TrimmedFields(a, sep) + TrimmedFields(b, sep)
  {
    SplitAppend(a, b, sep);
    KeepStrippedAppend(Split(a, sep), Split(b, sep));
  }

  /** A stretch without the separator is one field, or none when it is blank. */
  lemma TrimmedFieldsSingle(s: string, sep: char)
    requires sep !in s
    ensures TrimmedFields(s, sep) == if AllSpace(s) then [] else [Strip(s)]
  {
    SplitNoSep(s, sep);
    assert Split(s, sep)[1..] == [];
  }
}

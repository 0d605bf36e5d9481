/**
 * Byte strings and the handful of operations of Go's `bytes` and `strings`
 * packages that the blog generator relies on: splitting on a one-byte
 * separator, searching for a pattern, trimming ASCII white space and ASCII
 * case mapping.
 *
 * A Go byte is modelled as a character whose code is below 256, so that Go
 * string literals can be written as Dafny string literals.
 */
module Text {

  type Byte = c: char | c as int < 256
  type Bytes = seq<Byte>

  // ---------------------------------------------------------------------
  // Splitting (bytes.Split, bytes.SplitSeq, strings.Split with a
  // separator of one byte) and its inverse (strings.Join).
  // ---------------------------------------------------------------------

  /** The pieces of `s` between the occurrences of `sep`; there is always
      one piece more than there are separators, so "" splits into [""]. */
  function Split(s: Bytes, sep: Byte): (r: seq<Bytes>)
    ensures |r| >= 1
    ensures forall k :: 0 <= k < |r| ==> sep !in r[k]
    decreases |s|
  {
    if s == [] then [[]]
    else
      var rest := Split(s[1..], sep);
      if s[0] == sep then [[]] + rest
      else [[s[0]] + rest[0]] + rest[1..]
  }

  /** The pieces glued back together with `sep` between neighbours. */
  function JoinWith(parts: seq<Bytes>, sep: Byte): Bytes
  {
    if |parts| == 0 then []
    else if |parts| == 1 then parts[0]
    else parts[0] + [sep] + JoinWith(parts[1..], sep)
  }

  /** A piece without the separator is not split. */
  lemma {:induction false} SplitWithoutSep(s: Bytes, sep: Byte)
    requires sep !in s
    ensures Split(s, sep) == [s]
  {
    if s != [] {
      SplitWithoutSep(s[1..], sep);
      assert [s[0]] + s[1..] == s;
    }
  }

  /** Splitting distributes over a separator between two byte strings. */
  lemma {:induction false} SplitAround(a: Bytes, sep: Byte, b: Bytes)
    ensures Split(a + [sep] + b, sep) == Split(a, sep) + Split(b, sep)
  {
    var s := a + [sep] + b;
    if a == [] {
      assert s[1..] == b;
    } else {
      assert s[1..] == a[1..] + [sep] + b;
      SplitAround(a[1..], sep, b);
    }
  }

  /** Joining a first piece onto at least one more puts a separator between. */
  lemma JoinWithCons(p: Bytes, rest: seq<Bytes>, sep: Byte)
    requires |rest| >= 1
    ensures JoinWith([p] + rest, sep) == p + [sep] + JoinWith(rest, sep)
  {
    assert ([p] + rest)[1..] == rest;
  }

  /** Joining two non-empty lists of pieces puts one separator between
      their joins. */
  lemma {:induction false} JoinWithAppend(a: seq<Bytes>, b: seq<Bytes>, sep: Byte)
    requires |a| >= 1 && |b| >= 1
    ensures JoinWith(a + b, sep) == JoinWith(a, sep) + [sep] + JoinWith(b, sep)
  {
    if |a| == 1 {
      JoinWithCons(a[0], b, sep);
      assert a + b == [a[0]] + b;
    } else {
      JoinWithAppend(a[1..], b, sep);
      assert a + b == [a[0]] + (a[1..] + b);
      JoinWithCons(a[0], a[1..] + b, sep);
      JoinWithCons(a[0], a[1..], sep);
      assert a == [a[0]] + a[1..];
    }
  }

  /** Prepending a byte to the first piece prepends it to the join. */
  lemma JoinWithPrepend(c: Byte, rest: seq<Bytes>, sep: Byte)
    requires |rest| >= 1
    ensures JoinWith([[c] + rest[0]] + rest[1..], sep) == [c] + JoinWith(rest, sep)
  {
    if |rest| > 1 {
      JoinWithCons([c] + rest[0], rest[1..], sep);
      JoinWithCons(rest[0], rest[1..], sep);
      assert rest == [rest[0]] + rest[1..];
    }
  }

  /** Joining the pieces of a split gives back the original. */
  lemma {:induction false} JoinSplit(s: Bytes, sep: Byte)
    ensures JoinWith(Split(s, sep), sep) == s
  {
    if s != [] {
      JoinSplit(s[1..], sep);
      var rest := Split(s[1..], sep);
      assert [s[0]] + s[1..] == s;
      if s[0] == sep {
        JoinWithCons([], rest, sep);
      } else {
        JoinWithPrepend(s[0], rest, sep);
      }
    }
  }

  /** Splitting a join of separator-free pieces gives back the pieces. */
  lemma {:induction false} SplitJoin(parts: seq<Bytes>, sep: Byte)
    requires |parts| >= 1
    requires forall k :: 0 <= k < |parts| ==> sep !in parts[k]
    ensures Split(JoinWith(parts, sep), sep) == parts
  {
    if |parts| == 1 {
      SplitWithoutSep(parts[0], sep);
    } else {
      SplitJoin(parts[1..], sep);
      SplitWithoutSep(parts[0], sep);
      SplitAround(parts[0], sep, JoinWith(parts[1..], sep));
      assert parts == [parts[0]] + parts[1..];
    }
  }

  // ---------------------------------------------------------------------
  // Searching (bytes.LastIndex, strings.Contains).
  // ---------------------------------------------------------------------

  /** `pat` occurs in `s` starting at index `i`. */
  predicate Occurs(s: Bytes, pat: Bytes, i: int)
  {
    0 <= i && i + |pat| <= |s| && s[i..i + |pat|] == pat
  }

  /** The index of the last occurrence of `pat` in `s`, or -1 when there is
      none; an empty pattern occurs last at |s|, as in Go. */
  function LastIndex(s: Bytes, pat: Bytes): (r: int)
    ensures r == -1 || Occurs(s, pat, r)
    ensures r == -1 <==> forall i :: !Occurs(s, pat, i)
    ensures forall i :: r < i ==> !Occurs(s, pat, i)
    decreases |s|
  {
    if |pat| > |s| then -1
    else if |pat| == 0 then |s|
    else if s[|s| - |pat|..] == pat then |s| - |pat|
    else
      var r := LastIndex(s[..|s| - 1], pat);
      OccursInPrefix(s, pat);
      r
  }

  /** An occurrence that does not reach the last byte is an occurrence in
      the prefix without that byte, and the other way round. */
  lemma OccursInPrefix(s: Bytes, pat: Bytes)
    requires |pat| >= 1 && |s| >= |pat|
    requires s[|s| - |pat|..] != pat
    ensures forall i :: Occurs(s, pat, i) <==> Occurs(s[..|s| - 1], pat, i)
  {
    forall i | Occurs(s[..|s| - 1], pat, i)
      ensures Occurs(s, pat, i)
    {
      assert s[..|s| - 1][i..i + |pat|] == s[i..i + |pat|];
    }
    forall i | Occurs(s, pat, i)
      ensures Occurs(s[..|s| - 1], pat, i)
    {
      assert i != |s| - |pat|;
      assert s[..|s| - 1][i..i + |pat|] == s[i..i + |pat|];
    }
  }

  /** `t` is a substring of `s` (strings.Contains): it occurs somewhere,
      which is what a last occurrence other than -1 says. */
  function Contains(s: Bytes, t: Bytes): (r: bool)
    ensures r <==> exists i :: Occurs(s, t, i)
    ensures r ==> |t| <= |s|
  {
    LastIndex(s, t) != -1
  }

  // ---------------------------------------------------------------------
  // White space (bytes.TrimSpace, restricted to ASCII white space).
  // ---------------------------------------------------------------------

  /** Tab, line feed, vertical tab, form feed, carriage return, space. */
  predicate IsSpace(c: Byte)
  {
    c == ' ' || 9 <= c as int <= 13
  }

  /** Neither end of `s` is white space. */
  predicate Trimmed(s: Bytes)
  {
    s == [] || (!IsSpace(s[0]) && !IsSpace(s[|s| - 1]))
  }

  /** The first index from `i` on that does not hold white space. */
  function Start(s: Bytes, i: nat): (a: nat)
    requires i <= |s|
    ensures i <= a <= |s|
    ensures forall k :: i <= k < a ==> IsSpace(s[k])
    ensures a == |s| || !IsSpace(s[a])
    decreases |s| - i
  {
    if i < |s| && IsSpace(s[i]) then Start(s, i + 1) else i
  }

  /** The index after the last byte before `j`, and not before `a`, that
      does not hold white space. */
  function Stop(s: Bytes, a: nat, j: nat): (b: nat)
    requires a <= j <= |s|
    ensures a <= b <= j
    ensures forall k :: b <= k < j ==> IsSpace(s[k])
    ensures b == a || !IsSpace(s[b - 1])
    decreases j
  {
    if j > a && IsSpace(s[j - 1]) then Stop(s, a, j - 1) else j
  }

  /** `s` without leading and trailing white space: what remains is a
      contiguous part of `s` with no white space at either end, and every
      byte cut off is white space. */
  function TrimSpace(s: Bytes): (r: Bytes)
    ensures Trimmed(r)
    ensures exists a :: TrimmedAt(s, r, a)
  {
    var a := Start(s, 0);
    var b := Stop(s, a, |s|);
    assert TrimmedAt(s, s[a..b], a);
    s[a..b]
  }

  /** `r` is the part of `s` starting at `a`, and every byte of `s` around
      it is white space. */
  predicate TrimmedAt(s: Bytes, r: Bytes, a: int)
  {
    0 <= a <= |s| - |r| && s[a..a + |r|] == r
    && (forall i :: 0 <= i < a ==> IsSpace(s[i]))
    && (forall i :: a + |r| <= i < |s| ==> IsSpace(s[i]))
  }

  /** Trimming leaves an already trimmed string alone. */
  lemma TrimSpaceOfTrimmed(s: Bytes)
    requires Trimmed(s)
    ensures TrimSpace(s) == s
  {
    assert Start(s, 0) == 0;
    assert Stop(s, 0, |s|) == |s|;
    assert s[0..|s|] == s;
  }

  /** One leading space (what follows the colon in `key: value`) is cut off
      and a trimmed value is kept whole. */
  lemma TrimSpaceAfterBlank(v: Bytes)
    requires Trimmed(v)
    ensures TrimSpace([' '] + v) == v
  {
    var s := [' '] + v;
    assert Start(s, 0) == Start(s, 1);
    assert Start(s, 1) == 1 by {
      if v != [] {
        assert s[1] == v[0];
      }
    }
    assert Stop(s, 1, |s|) == |s| by {
      if v != [] {
        assert s[|s| - 1] == v[|v| - 1];
      }
    }
    assert s[1..|s|] == v;
  }

  // ---------------------------------------------------------------------
  // ASCII case mapping (strings.ToLower / strings.ToUpper on ASCII text).
  // ---------------------------------------------------------------------

  function LowerByte(c: Byte): Byte
  {
    if 'A' <= c <= 'Z' then (c as int + 32) as char else c
  }

  function UpperByte(c: Byte): Byte
  {
    if 'a' <= c <= 'z' then (c as int - 32) as char else c
  }

  /** `s` with every ASCII upper-case letter replaced by its lower-case one. */
  function Lower(s: Bytes): (r: Bytes)
    ensures |r| == |s|
  {
    seq(|s|, i requires 0 <= i < |s| => LowerByte(s[i]))
  }

  /** `s` with every ASCII lower-case letter replaced by its upper-case one. */
  function Upper(s: Bytes): (r: Bytes)
    ensures |r| == |s|
  {
    seq(|s|, i requires 0 <= i < |s| => UpperByte(s[i]))
  }

  /** Lower-casing twice is lower-casing once. */
  lemma LowerIdempotent(s: Bytes)
    ensures Lower(Lower(s)) == Lower(s)
  {
    assert forall i :: 0 <= i < |s| ==> LowerByte(LowerByte(s[i])) == LowerByte(s[i]);
  }

  /** Upper-casing first makes no difference to the lower-cased text, so
      lower-casing forgets the case of every letter. */
  lemma LowerOfUpper(s: Bytes)
    ensures Lower(Upper(s)) == Lower(s)
  {
    assert forall i :: 0 <= i < |s| ==> LowerByte(UpperByte(s[i])) == LowerByte(s[i]);
  }
}

/** String operations the catalog relies on: substring containment (the
    `LIKE %k%` of the keyword search), the string order used by `ORDER BY`,
    a sorted de-duplicating collector for `SELECT DISTINCT`, and the
    comma-joined list held in the `images` column. */
module Text {
  import opened Base

  /** `k` occurs in `s` starting at index `i`. */
  ghost predicate OccursAt(s: string, k: string, i: int) {
    0 <= i && i + |k| <= |s| && s[i..i + |k|] == k
  }

  ghost predicate Occurs(s: string, k: string) {
    exists i :: OccursAt(s, k, i)
  }

  lemma OccursShift(s: string, k: string)
    requires |s| > 0
    ensures Occurs(s, k) <==> OccursAt(s, k, 0) || Occurs(s[1..], k)
  {
    if Occurs(s, k) && !OccursAt(s, k, 0) {
      var i :| OccursAt(s, k, i);
      assert s[1..][i - 1..i - 1 + |k|] == s[i..i + |k|];
      assert OccursAt(s[1..], k, i - 1);
    }
    if Occurs(s[1..], k) {
      var i :| OccursAt(s[1..], k, i);
      assert s[1..][i..i + |k|] == s[i + 1..i + 1 + |k|];
      assert OccursAt(s, k, i + 1);
    }
  }

  /** Substring containment, scanning start positions from the left. */
  function Contains(s: string, k: string): (b: bool)
    ensures b <==> Occurs(s, k)
    decreases |s|
  {
    if |k| > |s| then
      assert forall i :: !OccursAt(s, k, i);
      false
    else if s[..|k|] == k then
      assert OccursAt(s, k, 0);
      true
    else
      OccursShift(s, k);
      Contains(s[1..], k)
  }

  /** Lexicographic order on character codes (a binary collation). */
  predicate Less(a: string, b: string)
    decreases |a|
  {
    if |a| == 0 then |b| > 0
    else if |b| == 0 then false
    else a[0] < b[0] || (a[0] == b[0] && Less(a[1..], b[1..]))
  }

  lemma {:induction false} LessIrreflexive(a: string)
    ensures !Less(a, a)
  {
    if |a| > 0 {
      LessIrreflexive(a[1..]);
    }
  }

  lemma {:induction false} LessTransitive(a: string, b: string, c: string)
    requires Less(a, b) && Less(b, c)
    ensures Less(a, c)
  {
    if |a| > 0 && |b| > 0 && |c| > 0 && a[0] == b[0] == c[0] {
      LessTransitive(a[1..], b[1..], c[1..]);
    }
  }

  lemma {:induction false} LessTotal(a: string, b: string)
    requires a != b
    ensures Less(a, b) || Less(b, a)
  {
    if |a| > 0 && |b| > 0 && a[0] == b[0] {
      assert a == [a[0]] + a[1..] && b == [b[0]] + b[1..];
      LessTotal(a[1..], b[1..]);
    }
  }

  /** Strictly ascending: sorted, and (the order being irreflexive) free of duplicates. */
  ghost predicate StrictlyAscending(s: seq<string>) {
    forall i, j | 0 <= i < j < |s| :: Less(s[i], s[j])
  }

  lemma AscendingIsDistinct(s: seq<string>)
    requires StrictlyAscending(s)
    ensures Distinct(s)
  {
    forall i, j | 0 <= i < j < |s| ensures s[i] != s[j] {
      LessIrreflexive(s[i]);
    }
  }

  /** Adds `x` to a strictly ascending list unless it is already there. */
  function InsertUnique(x: string, s: seq<string>): (r: seq<string>)
    requires StrictlyAscending(s)
    ensures StrictlyAscending(r)
    ensures forall y :: y in r <==> y == x || y in s
  {
    if |s| == 0 then [x]
    else if x == s[0] then s
    else if Less(x, s[0]) then
      assert forall j | 0 < j < |s| :: Less(x, s[j]) by {
        forall j | 0 < j < |s| ensures Less(x, s[j]) {
          LessTransitive(x, s[0], s[j]);
        }
      }
      [x] + s
    else
      LessTotal(x, s[0]);
      var rest := InsertUnique(x, s[1..]);
      assert forall y | y in rest :: Less(s[0], y);
      [s[0]] + rest
  }

  /** `SELECT DISTINCT ... ORDER BY`: the values of `xs`, each once, ascending. */
  function SortedDistinct(xs: seq<string>): (r: seq<string>)
    ensures StrictlyAscending(r)
    ensures forall y :: y in r <==> y in xs
  {
    if |xs| == 0 then []
    else InsertUnique(xs[0], SortedDistinct(xs[1..]))
  }

  /** The entries of a list, separated by single commas, without a trailing comma. */
  function JoinCommas(parts: seq<string>): string {
    if |parts| == 0 then ""
    else if |parts| == 1 then parts[0]
    else parts[0] + "," + JoinCommas(parts[1..])
  }

  /** Splits at every comma; the inverse of JoinCommas on comma-free entries. */
  function SplitCommas(s: string): (r: seq<string>)
    ensures |r| >= 1
  {
    if |s| == 0 then [""]
    else
      var rest := SplitCommas(s[1..]);
      if s[0] == ',' then [""] + rest
      else [[s[0]] + rest[0]] + rest[1..]
  }

  lemma {:induction false} JoinAppend(parts: seq<string>, q: string)
    requires |parts| >= 1
    ensures JoinCommas(parts + [q]) == JoinCommas(parts) + "," + q
  {
    if |parts| > 1 {
      assert (parts + [q])[1..] == parts[1..] + [q];
      JoinAppend(parts[1..], q);
    }
  }

  lemma {:induction false} SplitPlain(p: string)
    requires ',' !in p
    ensures SplitCommas(p) == [p]
  {
    if |p| > 0 {
      SplitPlain(p[1..]);
      assert [p[0]] + p[1..] == p;
    }
  }

  lemma {:induction false} SplitAfter(p: string, t: string)
    requires ',' !in p
    ensures SplitCommas(p + "," + t) == [p] + SplitCommas(t)
  {
    if |p| == 0 {
      assert p + "," + t == [','] + t;
      assert (p + "," + t)[1..] == t;
    } else {
      assert (p + "," + t)[1..] == p[1..] + "," + t;
      SplitAfter(p[1..], t);
      assert [p[0]] + p[1..] == p;
    }
  }

  /** Joining comma-free entries and splitting at commas gives back the entries:
      the joined string records each entry once, in order. */
  lemma {:induction false} SplitJoin(parts: seq<string>)
    requires |parts| >= 1
    requires forall p | p in parts :: ',' !in p
    ensures SplitCommas(JoinCommas(parts)) == parts
  {
    if |parts| == 1 {
      SplitPlain(parts[0]);
    } else {
      SplitAfter(parts[0], JoinCommas(parts[1..]));
      SplitJoin(parts[1..]);
      assert parts == [parts[0]] + parts[1..];
    }
  }
}

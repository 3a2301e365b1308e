/**
 * Splitting a string into the fields separated by a delimiter character,
 * and joining fields back together: the specification of the
 * `getline`-on-delimiter loop the extractor runs.
 */
module Fields {

  /** The number of occurrences of `d` in `s`. */
  function Count(s: string, d: char): (n: nat)
    ensures n <= |s|
    ensures n == 0 <==> d !in s
  {
    if s == [] then 0 else (if s[0] == d then 1 else 0) + Count(s[1..], d)
  }

  /** The index of the first `d` in `s`, or `|s|` when there is none: where the first field ends. */
  function FieldEnd(s: string, d: char): (i: nat)
    ensures i <= |s|
    ensures d !in s[..i]
    ensures i < |s| ==> s[i] == d
  {
    if s == [] || s[0] == d then 0
    else
      var i := 1 + FieldEnd(s[1..], d);
      assert s[..i] == [s[0]] + s[1..][..i - 1];
      i
  }

  /**
   * The fields of `s`: the maximal runs of characters between occurrences
   * of `d`, left to right. There is always at least one field, and a field
   * may be empty (`""` gives `[""]`, `"a,"` gives `["a", ""]`).
   */
  function Split(s: string, d: char): (fields: seq<string>)
    ensures fields != []
    decreases |s|
  {
    var i := FieldEnd(s, d);
    if i == |s| then [s] else [s[..i]] + Split(s[i + 1..], d)
  }

  /** The fields written one after the other with a `d` between each pair. */
  function Join(fields: seq<string>, d: char): string
    requires fields != []
  {
    if |fields| == 1 then fields[0] else fields[0] + [d] + Join(fields[1..], d)
  }

  /** True when no field contains the delimiter. */
  predicate NoDelimiter(fields: seq<string>, d: char)
  {
    forall k :: 0 <= k < |fields| ==> d !in fields[k]
  }

  /** `FieldEnd` is the only index before which there is no `d` and at which the first `d` (or the end) sits. */
  lemma FieldEndIs(s: string, d: char, i: nat)
    requires i <= |s|
    requires d !in s[..i]
    requires i == |s| || s[i] == d
    ensures FieldEnd(s, d) == i
  {
  }

  lemma CountAppend(a: string, b: string, d: char)
    ensures Count(a + b, d) == Count(a, d) + Count(b, d)
  {
    if a == [] {
      assert a + b == b;
    } else {
      assert (a + b)[1..] == a[1..] + b;
      CountAppend(a[1..], b, d);
    }
  }

  /** There is one more field than there are delimiters. */
  lemma {:induction false} SplitCount(s: string, d: char)
    ensures |Split(s, d)| == Count(s, d) + 1
    decreases |s|
  {
    var i := FieldEnd(s, d);
    if i < |s| {
      var rest := s[i + 1..];
      assert s == s[..i] + ([d] + rest);
      CountAppend(s[..i], [d] + rest, d);
      assert ([d] + rest)[1..] == rest;
      SplitCount(rest, d);
    }
  }

  /** No field contains the delimiter. */
  lemma {:induction false} SplitNoDelimiter(s: string, d: char)
    ensures NoDelimiter(Split(s, d), d)
    decreases |s|
  {
    var i := FieldEnd(s, d);
    if i < |s| {
      SplitNoDelimiter(s[i + 1..], d);
    }
  }

  /** Joining the fields with the delimiter gives back the string that was split. */
  lemma {:induction false} SplitJoin(s: string, d: char)
    ensures Join(Split(s, d), d) == s
    decreases |s|
  {
    var i := FieldEnd(s, d);
    if i < |s| {
      SplitJoin(s[i + 1..], d);
      assert s == s[..i] + [d] + s[i + 1..];
    }
  }

  /**
   * Splitting `a`, a delimiter and `b` gives the fields of `a` followed by
   * the fields of `b`: fields come out in the order they appear.
   */
  lemma {:induction false} SplitConcat(a: string, b: string, d: char)
    ensures Split(a + [d] + b, d) == Split(a, d) + Split(b, d)
    decreases |a|
  {
    var t := a + [d] + b;
    var i := FieldEnd(a, d);
    assert t[..i] == a[..i];
    if i == |a| {
      FieldEndIs(t, d, |a|);
      assert t[..|a|] == a;
      assert t[|a| + 1..] == b;
      assert Split(a, d) == [a];
    } else {
      FieldEndIs(t, d, i);
      assert t[i + 1..] == a[i + 1..] + [d] + b;
      SplitConcat(a[i + 1..], b, d);
    }
  }

  /** A delimiter at the end of the string adds one empty last field. */
  lemma TrailingDelimiter(s: string, d: char)
    ensures Split(s + [d], d) == Split(s, d) + [""]
  {
    SplitConcat(s, "", d);
    assert s + [d] + "" == s + [d];
    assert FieldEnd("", d) == 0;
  }

  /**
   * Splitting inverts joining whenever no field contains the delimiter:
   * together with `SplitJoin` and `SplitNoDelimiter`, the fields of `s`
   * are the one delimiter-free list that joins to `s`.
   */
  lemma {:induction false} JoinSplit(fields: seq<string>, d: char)
    requires fields != []
    requires NoDelimiter(fields, d)
    ensures Split(Join(fields, d), d) == fields
    decreases |fields|
  {
    var f := fields[0];
    assert d !in f;
    FieldEndIs(f, d, |f|);
    assert f[..|f|] == f;
    if |fields| > 1 {
      assert NoDelimiter(fields[1..], d) by {
        forall k | 0 <= k < |fields[1..]| ensures d !in fields[1..][k] {
          assert fields[1..][k] == fields[k + 1];
        }
      }
      JoinSplit(fields[1..], d);
      SplitConcat(f, Join(fields[1..], d), d);
      assert fields == [f] + fields[1..];
    }
  }
}

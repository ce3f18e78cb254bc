/** The tag filter sent to the job API: the sorted intersection of the configured tags and
    the tags of the job that is running. */
module Tags {
  import opened Results

  /** Python's `<` on `str`: lexicographic by code point, a proper prefix first. */
  predicate Below(a: string, b: string)
    decreases |a|
  {
    b != [] && (a == [] || a[0] < b[0] || (a[0] == b[0] && Below(a[1..], b[1..])))
  }

  lemma {:induction false} BelowIrreflexive(a: string)
    ensures !Below(a, a)
  {
    if a != [] {
      BelowIrreflexive(a[1..]);
    }
  }

  lemma {:induction false} BelowTransitive(a: string, b: string, c: string)
    requires Below(a, b) && Below(b, c)
    ensures Below(a, c)
  {
    if a != [] && a[0] == b[0] && b[0] == c[0] {
      BelowTransitive(a[1..], b[1..], c[1..]);
    }
  }

  lemma {:induction false} BelowTotal(a: string, b: string)
    requires a != b
    ensures Below(a, b) || Below(b, a)
  {
    if a != [] && b != [] && a[0] == b[0] {
      assert a == [a[0]] + a[1..] && b == [b[0]] + b[1..];
      BelowTotal(a[1..], b[1..]);
    }
  }

  /** Ascending with no repeated element: what `sorted(set(...))` produces. */
  ghost predicate StrictlySorted(s: seq<string>)
  {
    forall i, j :: 0 <= i < j < |s| ==> Below(s[i], s[j])
  }

  /** Insert `x` at its place in a strictly sorted list, unless it is already there. */
  function Insert(x: string, s: seq<string>): (r: seq<string>)
    requires StrictlySorted(s)
    ensures StrictlySorted(r)
    ensures forall y :: y in r <==> y == x || y in s
  {
    if s == [] then [x]
    else if x == s[0] then s
    else if Below(x, s[0]) then
      PrependSorted(x, s);
      [x] + s
    else
      BelowTotal(x, s[0]);
      var rest := Insert(x, s[1..]);
      PrependSorted(s[0], rest);
      [s[0]] + rest
  }

  /** Putting an element below the head of a strictly sorted list (or below all of its
      elements) in front keeps it strictly sorted. */
  lemma PrependSorted(x: string, s: seq<string>)
    requires StrictlySorted(s)
    requires s != [] ==> Below(x, s[0])
    ensures StrictlySorted([x] + s)
  {
    forall j | 0 < j < |s| ensures Below(x, s[j]) {
      BelowTransitive(x, s[0], s[j]);
    }
  }

  /** The elements of `xs`, sorted and without duplicates. */
  function SortDistinct(xs: seq<string>): (r: seq<string>)
    ensures StrictlySorted(r)
    ensures forall y :: y in r <==> y in xs
  {
    if xs == [] then [] else Insert(xs[0], SortDistinct(xs[1..]))
  }

  /** The elements of `a` that occur in `b`, in the order of `a`. */
  function Intersect(a: seq<string>, b: seq<string>): (r: seq<string>)
    ensures forall y :: y in r <==> y in a && y in b
  {
    if a == [] then [] else (if a[0] in b then [a[0]] else []) + Intersect(a[1..], b)
  }

  /** `_get_tags_to_filter`: `desired` is the tag list setting (empty when unset),
      `current` the `tags` field of the running job's data, absent when it has none. */
  function TagsToFilter(desired: seq<string>, current: Option<seq<string>>): (r: seq<string>)
    ensures StrictlySorted(r)
    ensures forall t :: t in r <==> t in desired && current.Some? && t in current.value
  {
    if desired == [] then []
    else if current.None? || current.value == [] then []
    else SortDistinct(Intersect(desired, current.value))
  }

  /** A strictly sorted list is determined by its elements: the result above is THE sorted
      list of the intersection, whatever order the set is iterated in. */
  lemma {:induction false} SortedByElements(r: seq<string>, q: seq<string>)
    requires StrictlySorted(r) && StrictlySorted(q)
    requires forall y :: y in r <==> y in q
    ensures r == q
  {
    assert r == [] || r[0] in q;
    assert q == [] || q[0] in r;
    if r != [] && q != [] {
      HeadIsLeast(q, r[0]);
      HeadIsLeast(r, q[0]);
      if r[0] != q[0] {
        BelowTransitive(r[0], q[0], r[0]);
        BelowIrreflexive(r[0]);
      }
      assert r == [r[0]] + r[1..] && q == [q[0]] + q[1..];
      forall y ensures y in r[1..] <==> y in q[1..] {
        if y in r[1..] {
          InTail(r, y);
          assert y in q && y != q[0];
          InTailOf(q, y);
        }
        if y in q[1..] {
          InTail(q, y);
          assert y in r && y != r[0];
          InTailOf(r, y);
        }
      }
      SortedByElements(r[1..], q[1..]);
    }
  }

  /** The head of a strictly sorted list is below every other element. */
  lemma HeadIsLeast(s: seq<string>, y: string)
    requires StrictlySorted(s) && y in s
    ensures y == s[0] || Below(s[0], y)
  {
  }

  lemma InTail(s: seq<string>, y: string)
    requires StrictlySorted(s) && s != [] && y in s[1..]
    ensures y in s && y != s[0]
  {
    var i :| 1 <= i < |s| && s[i] == y;
    BelowIrreflexive(y);
  }

  lemma InTailOf(s: seq<string>, y: string)
    requires s != [] && y in s && y != s[0]
    ensures y in s[1..]
  {
    var i :| 0 <= i < |s| && s[i] == y;
    assert s[1..][i - 1] == y;
  }

  /** Desired tags `a, b` and current tags `b, c` give the filter `[b]`. */
  lemma TagsExample()
    ensures TagsToFilter(["a", "b"], Some(["b", "c"])) == ["b"]
  {
    var r := TagsToFilter(["a", "b"], Some(["b", "c"]));
    assert forall y :: y in r <==> y == "b";
    SortedByElements(r, ["b"]);
  }
}

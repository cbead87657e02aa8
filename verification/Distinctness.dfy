/** Sequences without repetition. */
module Distinctness {
  ghost predicate NoDuplicates<T>(s: seq<T>) {
    forall i, j :: 0 <= i < j < |s| ==> s[i] != s[j]
  }

  ghost function Elements<T>(s: seq<T>): set<T> {
    set x | x in s
  }

  lemma NoDuplicatesConcat<T>(a: seq<T>, b: seq<T>)
    ensures NoDuplicates(a + b) <==> NoDuplicates(a) && NoDuplicates(b) && Elements(a) !! Elements(b)
    ensures Elements(a + b) == Elements(a) + Elements(b)
  {
    var ab := a + b;
    forall i | 0 <= i < |ab|
      ensures if i < |a| then ab[i] in Elements(a) else ab[i] in Elements(b)
    {
    }
    if NoDuplicates(ab) {
      assert forall i :: 0 <= i < |a| ==> a[i] == ab[i];
      assert forall i :: 0 <= i < |b| ==> b[i] == ab[|a| + i];
    }
  }

  lemma NoDuplicatesPush<T>(a: seq<T>, x: T)
    ensures NoDuplicates(a + [x]) <==> NoDuplicates(a) && x !in Elements(a)
    ensures Elements(a + [x]) == Elements(a) + {x}
  {
    NoDuplicatesConcat(a, [x]);
    assert Elements([x]) == {x};
  }

  lemma NoDuplicatesCons<T>(x: T, b: seq<T>)
    ensures NoDuplicates([x] + b) <==> NoDuplicates(b) && x !in Elements(b)
    ensures Elements([x] + b) == {x} + Elements(b)
  {
    NoDuplicatesConcat([x], b);
    assert Elements([x]) == {x};
  }

  lemma {:induction false} AsManyElements<T>(s: seq<T>)
    ensures |Elements(s)| <= |s|
    ensures |Elements(s)| == |s| <==> NoDuplicates(s)
  {
    if |s| > 0 {
      var front, last := s[..|s| - 1], s[|s| - 1];
      AsManyElements(front);
      assert s == front + [last];
      NoDuplicatesPush(front, last);
    } else {
      assert Elements(s) == {};
    }
  }

  lemma SameElementsSameDistinctness<T>(s: seq<T>, t: seq<T>)
    requires |s| == |t| && Elements(s) == Elements(t)
    ensures NoDuplicates(s) <==> NoDuplicates(t)
  {
    AsManyElements(s);
    AsManyElements(t);
  }
}

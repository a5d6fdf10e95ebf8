/** Guessing a misspelled identifier: the two-row dynamic program and the search for the best guess. */
module EditDistance {
  import opened Words

  type Word = string

  function Init(a: Word): Word
    requires a != []
  {
    a[..|a| - 1]
  }

  function Last(a: Word): char
    requires a != []
  {
    a[|a| - 1]
  }

  function Min(x: nat, y: nat): nat { if x <= y then x else y }

  /** The recursive edit distance, on the last characters. */
  function Distance(a: Word, b: Word): nat
    decreases |a| + |b|
  {
    if a == [] then |b|
    else if b == [] then |a|
    else Min(Min(Distance(Init(a), b) + 1, Distance(a, Init(b)) + 1),
             Distance(Init(a), Init(b)) + if Last(a) == Last(b) then 0 else 1)
  }

  // ----- the dynamic program -----

  /** The distances of a word to the first prefixes of another. */
  predicate Row(d: seq<int>, a: Word, b: Word, upTo: int)
    requires -1 <= upTo <= |b| < |d|
  {
    forall k | 0 <= k <= upTo :: d[k] == Distance(a, b[..k])
  }

  /** One entry of the next row from the three around it. */
  lemma NextEntry(a: Word, b: Word, i: nat, j: nat)
    requires i < |a| && 1 <= j <= |b|
    ensures Distance(a[..i + 1], b[..j]) ==
            Min(Min(Distance(a[..i], b[..j]) + 1, Distance(a[..i + 1], b[..j - 1]) + 1),
                Distance(a[..i], b[..j - 1]) + if a[i] == b[j - 1] then 0 else 1)
  {
    var x, y := a[..i + 1], b[..j];
    assert Init(x) == a[..i] && Init(y) == b[..j - 1] && Last(x) == a[i] && Last(y) == b[j - 1];
  }

  lemma NextStart(a: Word, b: Word, i: nat)
    requires i < |a|
    ensures Distance(a[..i + 1], b[..0]) == Distance(a[..i], b[..0]) + 1
  {
  }

  /** Fill the next row from the last one. */
  method FillRow(s1: Word, s2: Word, i: nat, last: array<int>, next: array<int>)
    requires i < |s1| && last.Length == next.Length == |s2| + 1 && last != next
    requires Row(last[..], s1[..i], s2, |s2|)
    modifies next
    ensures Row(next[..], s1[..i + 1], s2, |s2|)
  {
    hide Distance;
    assert last[..][0] == last[0];
    NextStart(s1, s2, i);
    next[0] := last[0] + 1;
    var j := 1;
    while j <= |s2|
      invariant 1 <= j <= |s2| + 1
      invariant last[..] == old(last[..])
      invariant Row(next[..], s1[..i + 1], s2, j - 1)
    {
      NextEntry(s1, s2, i, j);
      assert last[..][j] == last[j] && last[..][j - 1] == last[j - 1] && next[..][j - 1] == next[j - 1];
      var substituted := last[j - 1] + if s1[i] == s2[j - 1] then 0 else 1;
      var best := if last[j] + 1 <= next[j - 1] + 1 then last[j] + 1 else next[j - 1] + 1;
      ghost var before := next[..];
      next[j] := if best <= substituted then best else substituted;
      assert next[..] == before[j := next[j]];
      j := j + 1;
    }
  }

  /** Two rows, swapped after each character, give the distance. */
  method EditDistance(s1: Word, s2: Word) returns (d: nat)
    ensures d == Distance(s1, s2)
  {
    var last, next := new int[|s2| + 1](_ => 0), new int[|s2| + 1](_ => 0);
    var j := 1;
    while j <= |s2|
      invariant 1 <= j <= |s2| + 1
      invariant forall k | 0 <= k < j :: last[k] == k
    {
      last[j] := last[j - 1] + 1;
      j := j + 1;
    }
    var i := 0;
    while i < |s1|
      invariant 0 <= i <= |s1| && last != next && fresh(last) && fresh(next)
      invariant last.Length == next.Length == |s2| + 1
      invariant Row(last[..], s1[..i], s2, |s2|)
    {
      FillRow(s1, s2, i, last, next);
      last, next := next, last;
      i := i + 1;
    }
    assert s1[..i] == s1 && s2[..|s2|] == s2 && last[..][|s2|] == last[|s2|];
    d := last[|s2|];
  }

  // ----- the distance is the least number of edits -----

  function Without(a: Word, i: nat): Word
    requires i < |a|
  {
    a[..i] + a[i + 1..]
  }

  /** One character inserted, deleted or replaced. */
  ghost predicate OneEdit(a: Word, b: Word) {
    || (exists i | 0 <= i < |a| :: b == Without(a, i))
    || (exists i | 0 <= i < |b| :: a == Without(b, i))
    || (|a| == |b| && exists i | 0 <= i < |a| :: b == a[i := b[i]])
  }

  /** n edits lead from a to b. */
  ghost predicate Edits(a: Word, b: Word, n: nat)
    decreases n
  {
    if n == 0 then a == b else exists c :: OneEdit(a, c) && Edits(c, b, n - 1)
  }

  /** Whatever the case, the distance is at most that of each shorter pair plus its cost. */
  lemma AtMost(a: Word, b: Word)
    ensures a != [] ==> Distance(a, b) <= Distance(Init(a), b) + 1
    ensures b != [] ==> Distance(a, b) <= Distance(a, Init(b)) + 1
    ensures a != [] && b != [] && Last(a) == Last(b) ==> Distance(a, b) <= Distance(Init(a), Init(b))
    ensures a != [] && b != [] ==> Distance(a, b) <= Distance(Init(a), Init(b)) + 1
  {
  }

  lemma InitConcat(u: Word, v: Word)
    requires v != []
    ensures u + v != [] && Init(u + v) == u + Init(v) && Last(u + v) == Last(v)
  {
  }

  /** One more character in the first word costs at most one. */
  lemma {:induction false} InsertOne(u: Word, x: char, v: Word, b: Word)
    ensures Distance(u + [x] + v, b) <= Distance(u + v, b) + 1
    decreases |v| + |b|
  {
    hide Distance;
    AtMost(u + [x] + v, b);
    if v == [] {
      assert u + [x] + v == u + [x] && u + v == u && Init(u + [x]) == u;
    } else {
      InitConcat(u + [x], v);
      InitConcat(u, v);
      Cases(u + v, b);
      InsertOne(u, x, Init(v), b);
      if b != [] {
        InsertOne(u, x, v, Init(b));
        InsertOne(u, x, Init(v), Init(b));
      } else {
        Empty(u + [x] + v);
        Empty(u + v);
      }
    }
  }

  /** One less, too. */
  lemma {:induction false} DeleteOne(u: Word, x: char, v: Word, b: Word)
    ensures Distance(u + v, b) <= Distance(u + [x] + v, b) + 1
    decreases |v| + |b|
  {
    hide Distance;
    var w := u + [x] + v;
    Cases(w, b);
    AtMost(u + v, b);
    if b == [] {
      Empty(w);
      Empty(u + v);
    } else if v == [] {
      assert w == u + [x] && u + v == u && Init(u + [x]) == u;
      DeleteOne(u, x, v, Init(b));
    } else {
      InitConcat(u + [x], v);
      InitConcat(u, v);
      DeleteOne(u, x, Init(v), b);
      DeleteOne(u, x, v, Init(b));
      DeleteOne(u, x, Init(v), Init(b));
    }
  }

  /** And so does another character. */
  lemma {:induction false} ReplaceOne(u: Word, x: char, y: char, v: Word, b: Word)
    ensures Distance(u + [y] + v, b) <= Distance(u + [x] + v, b) + 1
    decreases |v| + |b|
  {
    hide Distance;
    var w, z := u + [x] + v, u + [y] + v;
    Cases(w, b);
    AtMost(z, b);
    if b == [] {
      Empty(w);
      Empty(z);
    } else if v == [] {
      assert w == u + [x] && z == u + [y] && Init(w) == u && Init(z) == u;
      ReplaceOne(u, x, y, v, Init(b));
    } else {
      InitConcat(u + [x], v);
      InitConcat(u + [y], v);
      ReplaceOne(u, x, y, Init(v), b);
      ReplaceOne(u, x, y, v, Init(b));
      ReplaceOne(u, x, y, Init(v), Init(b));
    }
  }

  lemma Empty(a: Word)
    ensures Distance(a, []) == |a|
  {
  }

  /** Where the distance of two words comes from. */
  lemma Cases(a: Word, b: Word)
    ensures a == [] && b == [] ==> Distance(a, b) == 0
    ensures a == [] && b != [] ==> Distance(a, b) == Distance(a, Init(b)) + 1
    ensures a != [] && b == [] ==> Distance(a, b) == Distance(Init(a), b) + 1
    ensures a != [] && b != [] ==>
            || Distance(a, b) == Distance(Init(a), b) + 1
            || Distance(a, b) == Distance(a, Init(b)) + 1
            || Distance(a, b) == Distance(Init(a), Init(b)) + if Last(a) == Last(b) then 0 else 1
  {
  }

  lemma EditCosts(a: Word, c: Word, b: Word)
    requires OneEdit(a, c)
    ensures Distance(a, b) <= Distance(c, b) + 1
  {
    hide Distance;
    if i :| 0 <= i < |a| && c == Without(a, i) {
      assert a == a[..i] + [a[i]] + a[i + 1..];
      InsertOne(a[..i], a[i], a[i + 1..], b);
    } else if i :| 0 <= i < |c| && a == Without(c, i) {
      assert c == c[..i] + [c[i]] + c[i + 1..];
      DeleteOne(c[..i], c[i], c[i + 1..], b);
    } else {
      var i :| 0 <= i < |a| && |a| == |c| && c == a[i := c[i]];
      assert a == a[..i] + [a[i]] + a[i + 1..];
      assert c == a[..i] + [c[i]] + a[i + 1..];
      ReplaceOne(a[..i], c[i], a[i], a[i + 1..], b);
    }
  }

  lemma {:induction false} SameDistance(a: Word)
    ensures Distance(a, a) == 0
  {
    if a != [] {
      SameDistance(Init(a));
    }
  }

  /** No sequence of edits from a to b is shorter than the distance. */
  lemma {:induction false} EditsBound(a: Word, b: Word, n: nat)
    requires Edits(a, b, n)
    ensures Distance(a, b) <= n
    decreases n
  {
    hide Distance, OneEdit;
    if n == 0 {
      SameDistance(a);
    } else {
      var c :| OneEdit(a, c) && Edits(c, b, n - 1);
      EditsBound(c, b, n - 1);
      EditCosts(a, c, b);
    }
  }

  lemma {:induction false} EditsThen(a: Word, c: Word, b: Word, n: nat)
    requires Edits(a, c, n) && OneEdit(c, b)
    ensures Edits(a, b, n + 1)
    decreases n
  {
    hide OneEdit;
    if n == 0 {
      assert OneEdit(a, b) && Edits(b, b, 0);
    } else {
      var d :| OneEdit(a, d) && Edits(d, c, n - 1);
      EditsThen(d, c, b, n - 1);
    }
  }

  lemma OneEditPadded(a: Word, b: Word, x: char)
    requires OneEdit(a, b)
    ensures OneEdit(a + [x], b + [x])
  {
    if i :| 0 <= i < |a| && b == Without(a, i) {
      assert b + [x] == Without(a + [x], i);
    } else if i :| 0 <= i < |b| && a == Without(b, i) {
      assert a + [x] == Without(b + [x], i);
    } else {
      var i :| 0 <= i < |a| && |a| == |b| && b == a[i := b[i]];
      assert b + [x] == (a + [x])[i := (b + [x])[i]];
    }
  }

  lemma {:induction false} EditsPadded(a: Word, b: Word, x: char, n: nat)
    requires Edits(a, b, n)
    ensures Edits(a + [x], b + [x], n)
    decreases n
  {
    hide OneEdit;
    if n > 0 {
      var c :| OneEdit(a, c) && Edits(c, b, n - 1);
      OneEditPadded(a, c, x);
      EditsPadded(c, b, x, n - 1);
    }
  }

  lemma EditsLast(a: Word)
    requires a != []
    ensures OneEdit(a, Init(a)) && OneEdit(Init(a), a)
    ensures forall x :: OneEdit(Init(a) + [x], a)
  {
    assert Init(a) == Without(a, |a| - 1);
    forall x
      ensures OneEdit(Init(a) + [x], a)
    {
      var w, i := Init(a) + [x], |a| - 1;
      assert |w| == |a| && a == w[i := a[i]];
    }
  }

  /** As many edits as the distance are enough. */
  lemma {:induction false} EditsExist(a: Word, b: Word)
    ensures Edits(a, b, Distance(a, b))
    decreases |a| + |b|
  {
    hide OneEdit, Edits, Distance;
    Cases(a, b);
    if a == [] {
      if b == [] {
        NoEdits(a);
      } else {
        EditsExist(a, Init(b));
        EditsLast(b);
        EditsThen(a, Init(b), b, Distance(a, Init(b)));
      }
    } else if b == [] || Distance(a, b) == Distance(Init(a), b) + 1 {
      EditsExist(Init(a), b);
      EditsLast(a);
      FirstEdit(a, Init(a), b, Distance(Init(a), b));
    } else if Distance(a, b) == Distance(a, Init(b)) + 1 {
      EditsExist(a, Init(b));
      EditsLast(b);
      EditsThen(a, Init(b), b, Distance(a, Init(b)));
    } else {
      EditsExist(Init(a), Init(b));
      EditsPadded(Init(a), Init(b), Last(a), Distance(Init(a), Init(b)));
      assert Init(a) + [Last(a)] == a && Init(b) + [Last(b)] == b;
      if Last(a) != Last(b) {
        EditsLast(b);
        EditsThen(a, Init(b) + [Last(a)], b, Distance(Init(a), Init(b)));
      }
    }
  }

  lemma NoEdits(a: Word)
    ensures Edits(a, a, 0)
  {
  }

  lemma FirstEdit(a: Word, c: Word, b: Word, n: nat)
    requires OneEdit(a, c) && Edits(c, b, n)
    ensures Edits(a, b, n + 1)
  {
    hide OneEdit;
  }

  // ----- the best guess -----

  datatype Lookup = Found | Misspelled(guess: Word) | NotFound

  /** Search a table for a name, in the order of the table. */
  method FindInTable(keys: seq<Word>, name: Word) returns (r: Lookup)
    ensures r == Found <==> name in keys
    ensures r == NotFound <==> name !in keys && forall k | k in keys :: Distance(name, k) >= 3
    ensures r.Misspelled? ==> r.guess in keys && Distance(name, r.guess) < 3
    ensures r.Misspelled? ==> forall k | k in keys :: Distance(name, r.guess) <= Distance(name, k)
    ensures r.Misspelled? ==>
            exists i | 0 <= i < |keys| ::
              keys[i] == r.guess && forall j | 0 <= j < i :: Distance(name, keys[j]) > Distance(name, r.guess)
  {
    if name in keys {
      return Found;
    }
    var best: Word, bestDist: Option<nat>, at, i := "", None, 0, 0;
    while i < |keys|
      invariant 0 <= i <= |keys|
      invariant bestDist.None? ==> forall j | 0 <= j < i :: Distance(name, keys[j]) >= 3
      invariant bestDist.Some? ==>
        && 0 <= at < i && keys[at] == best && bestDist.value == Distance(name, best) < 3
        && (forall j | 0 <= j < i :: bestDist.value <= Distance(name, keys[j]))
        && (forall j | 0 <= j < at :: bestDist.value < Distance(name, keys[j]))
    {
      var d := EditDistance(name, keys[i]);
      if (bestDist.None? || d < bestDist.value) && d < 3 {
        best, bestDist, at := keys[i], Some(d), i;
      }
      i := i + 1;
    }
    r := if bestDist.Some? then Misspelled(best) else NotFound;
  }
}

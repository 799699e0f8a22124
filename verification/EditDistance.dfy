/** "Did you mean ...?": the edit-distance table and the suggestion drawn from it. */
module EditDistance {
  import opened Basics

  // ---- edit scripts, the independent meaning of distance ----

  /** One step of turning one text into another, reading both from the end. */
  datatype Op = Keep | Replace(c: char) | Insert(c: char) | Delete

  function Cost(script: seq<Op>): nat {
    if script == [] then 0
    else Cost(script[..|script| - 1]) + (if script[|script| - 1].Keep? then 0 else 1)
  }

  /** The text a script makes of `a`, if it consumes exactly `a`. */
  function Apply(script: seq<Op>, a: string): Option<string> {
    if script == [] then (if a == [] then Some([]) else None)
    else
      var front, op := script[..|script| - 1], script[|script| - 1];
      if op.Insert? then Then(Apply(front, a), [op.c])
      else if a == [] then None
      else Then(Apply(front, a[..|a| - 1]), if op.Delete? then [] else if op.Replace? then [op.c] else [a[|a| - 1]])
  }

  function Then(r: Option<string>, tail: string): Option<string> {
    match r case Some(b) => Some(b + tail) case None => None
  }

  // ---- the recurrence ----

  function Min(a: nat, b: nat): nat { if a <= b then a else b }

  function Drop(s: string): string
    requires s != []
  {
    s[..|s| - 1]
  }

  function Last(s: string): char
    requires s != []
  {
    s[|s| - 1]
  }

  function Distance(a: string, b: string): nat
    decreases |a| + |b|
  {
    if a == [] then |b|
    else if b == [] then |a|
    else if Last(a) == Last(b) then Distance(Drop(a), Drop(b))
    else 1 + Min(Min(Distance(Drop(a), b), Distance(a, Drop(b))), Distance(Drop(a), Drop(b)))
  }

  lemma {:induction false} Symmetric(a: string, b: string)
    ensures Distance(a, b) == Distance(b, a)
    decreases |a| + |b|
  {
    if a != [] && b != [] {
      Symmetric(Drop(a), b);
      Symmetric(a, Drop(b));
      Symmetric(Drop(a), Drop(b));
    }
  }

  /** One character more or less on the left moves the distance by at most one. */
  lemma {:induction false} OneMoreCharacter(a: string, b: string)
    requires a != []
    ensures Distance(Drop(a), b) <= Distance(a, b) + 1
    ensures Distance(a, b) <= Distance(Drop(a), b) + 1
    decreases |a| + |b|
  {
    if b != [] {
      OneMoreCharacter(a, Drop(b));
      Symmetric(Drop(a), b);
      Symmetric(Drop(a), Drop(b));
      OneMoreCharacter(b, Drop(a));
    }
  }

  /** No script is cheaper than the recurrence. */
  lemma {:induction false} NoCheaperScript(script: seq<Op>, a: string)
    requires Apply(script, a).Some?
    ensures Distance(a, Apply(script, a).value) <= Cost(script)
  {
    if script != [] {
      var front, op := script[..|script| - 1], script[|script| - 1];
      var b := Apply(script, a).value;
      if op.Insert? {
        NoCheaperScript(front, a);
        assert Drop(b) == Apply(front, a).value;
        Symmetric(a, b);
        Symmetric(a, Drop(b));
        OneMoreCharacter(b, a);
      } else {
        NoCheaperScript(front, Drop(a));
        if op.Delete? {
          assert b == Apply(front, Drop(a)).value;
          OneMoreCharacter(a, b);
        } else {
          assert Drop(b) == Apply(front, Drop(a)).value;
        }
      }
    }
  }

  /** Some script costs exactly what the recurrence says. */
  lemma {:induction false} CheapestScript(a: string, b: string) returns (script: seq<Op>)
    ensures Apply(script, a) == Some(b) && Cost(script) == Distance(a, b)
    decreases |a| + |b|
  {
    if a == [] && b == [] {
      script := [];
    } else {
      var front, op;
      if a == [] || (b != [] && Last(a) != Last(b) && Distance(a, b) == 1 + Distance(a, Drop(b))) {
        front := CheapestScript(a, Drop(b));
        op := Insert(Last(b));
        assert Drop(b) + [Last(b)] == b;
      } else if b == [] || (Last(a) != Last(b) && Distance(a, b) == 1 + Distance(Drop(a), b)) {
        front := CheapestScript(Drop(a), b);
        op := Delete;
        assert b + [] == b;
      } else {
        front := CheapestScript(Drop(a), Drop(b));
        op := if Last(a) == Last(b) then Keep else Replace(Last(b));
        assert Drop(b) + [Last(b)] == b;
      }
      script := front + [op];
      assert script[..|script| - 1] == front;
    }
  }

  /** A difference in length costs at least that many edits. */
  lemma {:induction false} LengthGap(a: string, b: string)
    ensures Distance(a, b) >= |a| - |b| && Distance(a, b) >= |b| - |a|
    decreases |a| + |b|
  {
    if a != [] && b != [] {
      LengthGap(Drop(a), b);
      LengthGap(a, Drop(b));
      LengthGap(Drop(a), Drop(b));
    }
  }

  // ---- the table ----

  function Capped(a: string, b: string): nat {
    if |a| - |b| > 3 || |b| - |a| > 3 then 4 else Distance(a, b)
  }

  /** What cell `(i, j)` of the table should hold: the distance between the two prefixes. */
  function Cell(a: string, b: string, i: nat, j: nat): nat
    requires i <= |a| && j <= |b|
  {
    Distance(a[..i], b[..j])
  }

  method Levenshtein(a: string, b: string) returns (d: nat)
    ensures d == Capped(a, b)
  {
    var m, n := |a|, |b|;
    if m - n > 3 || n - m > 3 { return 4; }
    var dp := new nat[m + 1, n + 1]((i, j) => 0);
    for i := 0 to m + 1
      invariant forall k :: 0 <= k < i ==> dp[k, 0] == Cell(a, b, k, 0)
    {
      dp[i, 0] := i;
    }
    for j := 0 to n + 1
      invariant forall k :: 0 <= k <= m ==> dp[k, 0] == Cell(a, b, k, 0)
      invariant forall k :: 0 <= k < j ==> dp[0, k] == Cell(a, b, 0, k)
    {
      dp[0, j] := j;
    }
    for i := 1 to m + 1
      invariant forall k :: 0 <= k <= m ==> dp[k, 0] == Cell(a, b, k, 0)
      invariant forall k, l :: 0 <= k < i && 0 <= l <= n ==> dp[k, l] == Cell(a, b, k, l)
    {
      for j := 1 to n + 1
        invariant forall k :: 0 <= k <= m ==> dp[k, 0] == Cell(a, b, k, 0)
        invariant forall k, l :: 0 <= k < i && 0 <= l <= n ==> dp[k, l] == Cell(a, b, k, l)
        invariant forall l :: 0 <= l < j ==> dp[i, l] == Cell(a, b, i, l)
      {
        hide Cell;
        TableStep(a, b, i, j);
        dp[i, j] := if a[i - 1] == b[j - 1] then dp[i - 1, j - 1]
                    else 1 + Min(Min(dp[i - 1, j], dp[i, j - 1]), dp[i - 1, j - 1]);
      }
    }
    assert a[..m] == a && b[..n] == b;
    d := dp[m, n];
  }

  lemma TableStep(a: string, b: string, i: nat, j: nat)
    requires 1 <= i <= |a| && 1 <= j <= |b|
    ensures Cell(a, b, i, j)
            == if a[i - 1] == b[j - 1] then Cell(a, b, i - 1, j - 1)
               else 1 + Min(Min(Cell(a, b, i - 1, j), Cell(a, b, i, j - 1)), Cell(a, b, i - 1, j - 1))
  {
    assert Drop(a[..i]) == a[..i - 1] && Drop(b[..j]) == b[..j - 1];
  }

  /** The cap never changes whether a name is within two edits. */
  lemma CapIsHarmless(a: string, b: string)
    ensures Capped(a, b) <= 2 <==> Distance(a, b) <= 2
    ensures Capped(a, b) <= 2 ==> Capped(a, b) == Distance(a, b)
  {
    LengthGap(a, b);
  }

  // ---- the suggestion ----

  /** The first nearest candidate within two edits. */
  ghost predicate Suggested(name: string, candidates: seq<string>, r: Option<string>) {
    match r
    case None => forall i :: 0 <= i < |candidates| ==> Distance(name, candidates[i]) > 2
    case Some(c) =>
      exists i :: 0 <= i < |candidates| && candidates[i] == c && Distance(name, c) <= 2
        && (forall k :: 0 <= k < |candidates| ==> Distance(name, candidates[k]) >= Distance(name, c))
        && (forall k :: 0 <= k < i ==> Distance(name, candidates[k]) > Distance(name, c))
  }

  method DidYouMean(name: string, candidates: seq<string>) returns (best: Option<string>)
    ensures Suggested(name, candidates, best)
  {
    best := None;
    var bestDistance, at := 3, 0;
    for i := 0 to |candidates|
      invariant best.None? ==> bestDistance == 3 && forall k :: 0 <= k < i ==> Distance(name, candidates[k]) > 2
      invariant best.Some? ==>
                0 <= at < i && candidates[at] == best.value && bestDistance == Distance(name, best.value) <= 2
      invariant best.Some? ==> forall k :: 0 <= k < i ==> Distance(name, candidates[k]) >= bestDistance
      invariant best.Some? ==> forall k :: 0 <= k < at ==> Distance(name, candidates[k]) > bestDistance
    {
      var d := Levenshtein(name, candidates[i]);
      CapIsHarmless(name, candidates[i]);
      if d <= 2 && d < bestDistance {
        best, bestDistance, at := Some(candidates[i]), d, i;
      }
    }
  }

  /** Read as edits: a suggestion is made exactly when some candidate is within two edits of the name. */
  lemma SuggestionMeansEdits(name: string, candidates: seq<string>, r: Option<string>)
    requires Suggested(name, candidates, r)
    ensures r.Some? <==>
            exists i, script ::
              0 <= i < |candidates| && Apply(script, name) == Some(candidates[i]) && Cost(script) <= 2
  {
    if r.Some? {
      var i :| 0 <= i < |candidates| && candidates[i] == r.value && Distance(name, r.value) <= 2;
      var script := CheapestScript(name, candidates[i]);
    } else {
      forall i, script | 0 <= i < |candidates| && Apply(script, name) == Some(candidates[i]) ensures Cost(script) > 2 {
        NoCheaperScript(script, name);
      }
    }
  }
}

/** The N-back letter sequence generator (`generate_letter_seq`). The
    random draws are inputs: `letterDraws` supplies the successive results
    of `rd.choice(string.ascii_uppercase)` and `positionDraws` those of
    `rd.randint(n + 2, 69)`. Where the source would keep drawing, a method
    that exhausts its draws reports `ok == false`. */
module LetterSequence {

  /** The sequence length `m`. */
  const SeqLength: int := 70

  predicate IsUpper(ch: char) {
    'A' <= ch <= 'Z'
  }

  predicate AllUpper(s: seq<char>) {
    forall i :: 0 <= i < |s| ==> IsUpper(s[i])
  }

  predicate NoAdjacentRepeats(s: seq<char>) {
    forall i :: 0 < i < |s| ==> s[i - 1] != s[i]
  }

  // ---------------------------------------------------------------------
  // The initial sequence

  /** The sequence grown from the draws `ds`: the first draw starts it and
      each later draw is appended when it differs from the current last
      letter. */
  function Grown(ds: seq<char>): (s: seq<char>)
    ensures |s| <= |ds|
    ensures ds != [] ==> |s| > 0 && s[|s| - 1] == ds[|ds| - 1]
    ensures NoAdjacentRepeats(s)
  {
    if ds == [] then []
    else
      var p := Grown(ds[..|ds| - 1]);
      var d := ds[|ds| - 1];
      if p != [] && p[|p| - 1] == d then p else p + [d]
  }

  /** Taking one more draw appends it unless it repeats the last letter. */
  lemma GrownStep(ds: seq<char>, i: int)
    requires 0 <= i < |ds|
    ensures var p := Grown(ds[..i]);
      Grown(ds[..i + 1]) == if p != [] && p[|p| - 1] == ds[i] then p else p + [ds[i]]
  {
    assert ds[..i + 1][..i] == ds[..i];
  }

  /** Draws of upper-case letters grow a sequence of upper-case letters. */
  lemma {:induction false} GrownUpper(ds: seq<char>)
    requires AllUpper(ds)
    ensures AllUpper(Grown(ds))
  {
    if ds != [] {
      GrownUpper(ds[..|ds| - 1]);
    }
  }

  /** Draws letters until the sequence holds `SeqLength` of them, appending
      a draw only when it differs from the last letter. */
  method BuildSequence(draws: seq<char>) returns (ok: bool, s: seq<char>, used: nat)
    ensures used <= |draws|
    ensures s == Grown(draws[..used])
    ensures |s| <= SeqLength
    ensures ok <==> |s| == SeqLength
    ensures !ok ==> used == |draws|
    ensures ok ==> forall k :: 0 <= k < used ==> |Grown(draws[..k])| < SeqLength
  {
    if |draws| == 0 {
      return false, [], 0;
    }
    GrownStep(draws, 0);
    s := [draws[0]];
    used := 1;
    while |s| < SeqLength && used < |draws|
      invariant 1 <= used <= |draws|
      invariant s == Grown(draws[..used])
      invariant |s| <= SeqLength
      invariant forall k :: 0 <= k < used ==> |Grown(draws[..k])| < SeqLength
      decreases |draws| - used
    {
      var letter := draws[used];
      GrownStep(draws, used);
      if letter != s[|s| - 1] {
        s := s + [letter];
      }
      used := used + 1;
    }
    ok := |s| == SeqLength;
  }

  // ---------------------------------------------------------------------
  // Target positions

  function Dist(p: int, q: int): int {
    if p < q then q - p else p - q
  }

  /** The acceptance test for a drawn position: it is at least `minDist`
      away from every position accepted so far. */
  function FarFromAll(ps: set<int>, pos: int, minDist: int): (r: bool)
    ensures r && minDist > 0 ==> pos !in ps
  {
    assert Dist(pos, pos) == 0;
    forall p :: p in ps ==> Dist(pos, p) >= minDist
  }

  /** Any two distinct positions are at least `minDist` apart. */
  predicate Spaced(ps: set<int>, minDist: int) {
    forall p, q :: p in ps && q in ps && p != q ==> Dist(p, q) >= minDist
  }

  /** The positions accepted from the draws `ds`, each draw kept when it is
      far enough from every position kept before it. */
  function Placed(ds: seq<int>, minDist: int): (ps: set<int>)
    requires minDist > 0
    ensures Spaced(ps, minDist)
    ensures forall p :: p in ps ==> p in ds
  {
    if ds == [] then {}
    else
      var prev := Placed(ds[..|ds| - 1], minDist);
      var pos := ds[|ds| - 1];
      if FarFromAll(prev, pos, minDist) then prev + {pos} else prev
  }

  /** Taking one more draw: an accepted draw is new, so each acceptance
      adds exactly one position. */
  lemma PlacedStep(ds: seq<int>, i: int, minDist: int)
    requires minDist > 0 && 0 <= i < |ds|
    ensures var prev := Placed(ds[..i], minDist);
      Placed(ds[..i + 1], minDist) == (if FarFromAll(prev, ds[i], minDist) then prev + {ds[i]} else prev)
    ensures FarFromAll(Placed(ds[..i], minDist), ds[i], minDist) ==>
      ds[i] !in Placed(ds[..i], minDist) && |Placed(ds[..i + 1], minDist)| == |Placed(ds[..i], minDist)| + 1
  {
    assert ds[..i + 1][..i] == ds[..i];
    assert Dist(ds[i], ds[i]) == 0;
  }

  /** Draws target positions until `x` of them, pairwise at least `n + 2`
      apart, have been accepted. */
  method PlaceTargets(n: int, x: int, draws: seq<int>) returns (ok: bool, ps: set<int>, used: nat)
    requires n >= 0
    ensures used <= |draws|
    ensures ps == Placed(draws[..used], n + 2)
    ensures ok <==> |ps| >= x
    ensures ok ==> |ps| == if x < 0 then 0 else x
    ensures !ok ==> used == |draws|
  {
    ps := {};
    used := 0;
    while |ps| < x && used < |draws|
      invariant used <= |draws|
      invariant ps == Placed(draws[..used], n + 2)
      invariant |ps| <= if x < 0 then 0 else x
      decreases |draws| - used
    {
      var pos := draws[used];
      PlacedStep(draws, used, n + 2);
      if FarFromAll(ps, pos, n + 2) {
        ps := ps + {pos};
      }
      used := used + 1;
    }
    ok := |ps| >= x;
  }

  /** Every accepted position lies in the range of the draws. */
  lemma PlacedInRange(ds: seq<int>, minDist: int, lo: int, hi: int)
    requires minDist > 0
    requires forall i :: 0 <= i < |ds| ==> lo <= ds[i] <= hi
    ensures forall p :: p in Placed(ds, minDist) ==> lo <= p <= hi
  {
  }

  // ---------------------------------------------------------------------
  // `sorted(pos_list)`

  predicate StrictlyAscending(s: seq<int>) {
    forall i, j :: 0 <= i < j < |s| ==> s[i] < s[j]
  }

  /** The elements of `ps` within `[lo, hi)`, in ascending order: a scan
      of the range. */
  function Ascending(ps: set<int>, lo: int, hi: int): (s: seq<int>)
    requires lo <= hi
    ensures forall p :: p in s <==> p in ps && lo <= p < hi
    ensures forall k :: 0 <= k < |s| ==> lo <= s[k] < hi
    ensures StrictlyAscending(s)
    decreases hi - lo
  {
    if lo == hi then []
    else (if lo in ps then [lo] else []) + Ascending(ps, lo + 1, hi)
  }

  /** A strictly ascending sequence holds as many elements as its length. */
  lemma {:induction false} AscendingDistinct(s: seq<int>)
    requires StrictlyAscending(s)
    ensures |set x | x in s| == |s|
  {
    if s != [] {
      var t := s[1..];
      assert StrictlyAscending(t);
      AscendingDistinct(t);
      assert s[0] !in t;
      assert (set x | x in s) == {s[0]} + (set x | x in t);
    }
  }

  /** `sorted(pos_list)` for positions below `SeqLength`. */
  function SortedPositions(ps: set<int>): (s: seq<int>)
    requires forall p :: p in ps ==> 0 <= p < SeqLength
    ensures |s| == |ps|
    ensures forall p :: p in ps <==> p in s
    ensures StrictlyAscending(s)
  {
    var s := Ascending(ps, 0, SeqLength);
    AscendingDistinct(s);
    assert (set x | x in s) == ps;
    s
  }

  // ---------------------------------------------------------------------
  // Target insertion

  /** Targets ascend and are spaced so that no target's source `j - n` is
      another target, and each lies in `[n + 2, len)`. */
  predicate TargetsFit(ts: seq<int>, n: int, len: int) {
    StrictlyAscending(ts) &&
    (forall k :: 0 <= k < |ts| ==> n + 2 <= ts[k] < len) &&
    (forall k, l :: 0 <= k < l < |ts| ==> ts[l] - ts[k] >= n + 2)
  }

  /** The source `j - n` of a target `j` is no other target, nor `j`
      itself unless `n` is 0. */
  lemma SourceIsNoTarget(ts: seq<int>, n: int, len: int, k: int, l: int)
    requires n >= 0 && TargetsFit(ts, n, len)
    requires 0 <= k < |ts| && 0 <= l < |ts| && (l != k || n > 0)
    ensures ts[l] != ts[k] - n
  {
    if l < k {
      assert ts[k] - ts[l] >= n + 2;
    } else if k < l {
      assert ts[k] < ts[l];
    }
  }

  /** The sequence after the insertion pass: each target holds the letter
      that stood `n` places before it, every other position keeps its
      letter. */
  function Inserted(s: seq<char>, n: int, ts: seq<int>): (r: seq<char>)
    requires n >= 0 && TargetsFit(ts, n, |s|)
    ensures |r| == |s|
  {
    seq(|s|, i requires 0 <= i < |s| => if i in ts then s[i - n] else s[i])
  }

  /** After insertion each target matches the letter `n` places back: the
      N-back hit. */
  lemma InsertedIsHit(s: seq<char>, n: int, ts: seq<int>, k: int)
    requires n >= 0 && TargetsFit(ts, n, |s|) && 0 <= k < |ts|
    ensures Inserted(s, n, ts)[ts[k]] == Inserted(s, n, ts)[ts[k] - n]
    ensures Inserted(s, n, ts)[ts[k]] == s[ts[k] - n]
  {
    if n > 0 {
      forall l | 0 <= l < |ts| ensures ts[l] != ts[k] - n {
        SourceIsNoTarget(ts, n, |s|, k, l);
      }
    }
  }

  /** Positions that are not targets keep their letters. */
  lemma InsertedKeeps(s: seq<char>, n: int, ts: seq<int>, i: int)
    requires n >= 0 && TargetsFit(ts, n, |s|) && 0 <= i < |s| && i !in ts
    ensures Inserted(s, n, ts)[i] == s[i]
  {
  }

  /** Insertion only copies letters, so it keeps the alphabet. */
  lemma InsertedUpper(s: seq<char>, n: int, ts: seq<int>)
    requires n >= 0 && TargetsFit(ts, n, |s|) && AllUpper(s)
    ensures AllUpper(Inserted(s, n, ts))
  {
    var r := Inserted(s, n, ts);
    forall i | 0 <= i < |r| ensures IsUpper(r[i]) {
      if i in ts {
        var k :| 0 <= k < |ts| && ts[k] == i;
        assert IsUpper(s[i - n]);
      }
    }
  }

  /** A prefix of fitting targets fits. */
  lemma TargetsFitPrefix(ts: seq<int>, n: int, len: int, k: int)
    requires TargetsFit(ts, n, len) && 0 <= k <= |ts|
    ensures TargetsFit(ts[..k], n, len)
  {
    assert forall i :: 0 <= i < k ==> ts[..k][i] == ts[i];
  }

  /** Inserting one more target changes only that target, which takes the
      original letter `n` places back: no earlier insertion touched it. */
  lemma InsertedStep(s: seq<char>, n: int, ts: seq<int>, k: int)
    requires n >= 0 && TargetsFit(ts, n, |s|) && 0 <= k < |ts|
    ensures TargetsFit(ts[..k], n, |s|) && TargetsFit(ts[..k + 1], n, |s|)
    ensures Inserted(s, n, ts[..k])[ts[k] - n] == s[ts[k] - n]
    ensures Inserted(s, n, ts[..k + 1]) == Inserted(s, n, ts[..k])[ts[k] := s[ts[k] - n]]
  {
    TargetsFitPrefix(ts, n, |s|, k);
    TargetsFitPrefix(ts, n, |s|, k + 1);
    var j := ts[k];
    forall l | 0 <= l < k ensures ts[l] != j - n && ts[l] != j {
      SourceIsNoTarget(ts, n, |s|, k, l);
    }
    assert j - n !in ts[..k] && j !in ts[..k];
    assert ts[..k + 1] == ts[..k] + [j];
  }

  /** For each target `j`, in order, copies the letter `n` places back into
      position `j`, unless that would reach before the start. */
  method InsertTargets(a: array<char>, n: int, ts: seq<int>)
    requires n >= 0 && TargetsFit(ts, n, a.Length)
    modifies a
    ensures a[..] == Inserted(old(a[..]), n, ts)
  {
    ghost var s := a[..];
    assert ts[..0] == [];
    assert s == Inserted(s, n, ts[..0]);
    for k := 0 to |ts|
      invariant TargetsFit(ts[..k], n, a.Length)
      invariant a[..] == Inserted(s, n, ts[..k])
    {
      InsertedStep(s, n, ts, k);
      var j := ts[k];
      if j - n >= 0 {
        a[j] := a[j - n];
      }
    }
    assert ts[..|ts|] == ts;
  }

  /** Runs the insertion pass over an array holding a copy of `s`. */
  method InsertIntoCopy(s: seq<char>, n: int, ts: seq<int>) returns (r: seq<char>)
    requires n >= 0 && TargetsFit(ts, n, |s|)
    ensures r == Inserted(s, n, ts)
  {
    var a := new char[|s|](i requires 0 <= i < |s| => s[i]);
    assert a[..] == s;
    InsertTargets(a, n, ts);
    r := a[..];
  }

  /** Spaced positions in range, listed in ascending order, fit the
      insertion pass. */
  lemma AscendingSpacedFit(ps: set<int>, ts: seq<int>, n: int)
    requires n >= 0 && Spaced(ps, n + 2)
    requires forall p :: p in ps ==> n + 2 <= p <= SeqLength - 1
    requires forall p :: p in ps <==> p in ts
    requires StrictlyAscending(ts)
    ensures TargetsFit(ts, n, SeqLength)
  {
    forall k | 0 <= k < |ts| ensures n + 2 <= ts[k] < SeqLength {
      assert ts[k] in ts;
    }
    forall k, l | 0 <= k < l < |ts| ensures ts[l] - ts[k] >= n + 2 {
      assert ts[k] in ts && ts[l] in ts;
      assert Dist(ts[k], ts[l]) >= n + 2;
    }
  }

  // ---------------------------------------------------------------------
  // The generator

  /** `generate_letter_seq(n, x)`: a 70-letter sequence without immediate
      repeats, `x` target positions spaced `n + 2` apart, and each target
      overwritten with the letter `n` places before it. */
  method GenerateLetterSeq(n: int, x: int, letterDraws: seq<char>, positionDraws: seq<int>)
    returns (ok: bool, letters: seq<char>, targets: seq<int>,
             ghost base: seq<char>, ghost usedLetters: nat, ghost usedPositions: nat)
    requires n >= 0
    requires AllUpper(letterDraws)
    requires forall i :: 0 <= i < |positionDraws| ==> n + 2 <= positionDraws[i] <= SeqLength - 1
    ensures usedLetters <= |letterDraws| && usedPositions <= |positionDraws|
    ensures ok ==> base == Grown(letterDraws[..usedLetters])
    ensures ok ==> forall k :: 0 <= k < usedLetters ==> |Grown(letterDraws[..k])| < SeqLength
    ensures ok ==> targets == SortedPositions(Placed(positionDraws[..usedPositions], n + 2))
    ensures ok ==> |base| == SeqLength && NoAdjacentRepeats(base) && AllUpper(base)
    ensures ok ==> |targets| == if x < 0 then 0 else x
    ensures ok ==> TargetsFit(targets, n, SeqLength)
    ensures ok ==> letters == Inserted(base, n, targets)
    ensures !ok ==> usedLetters == |letterDraws| || usedPositions == |positionDraws|
    ensures !ok ==> |Grown(letterDraws)| < SeqLength || |Placed(positionDraws, n + 2)| < x
  {
    var built, s, used := BuildSequence(letterDraws);
    base, usedLetters, usedPositions := s, used, 0;
    ok, letters, targets := false, [], [];
    if !built {
      assert letterDraws[..used] == letterDraws;
      return;
    }
    GrownUpper(letterDraws[..used]);
    assert |base| == SeqLength;
    var placed, ps, usedP := PlaceTargets(n, x, positionDraws);
    usedPositions := usedP;
    if !placed {
      assert positionDraws[..usedP] == positionDraws;
      return;
    }
    PlacedInRange(positionDraws[..usedP], n + 2, n + 2, SeqLength - 1);
    targets := SortedPositions(ps);
    AscendingSpacedFit(ps, targets, n);
    letters := InsertIntoCopy(s, n, targets);
    ok := true;
  }

  /** The generated sequence has `SeqLength` upper-case letters, and at
      every target the letter `n` places back. */
  lemma GeneratedHits(base: seq<char>, n: int, targets: seq<int>, k: int)
    requires n >= 0 && |base| == SeqLength && AllUpper(base)
    requires TargetsFit(targets, n, SeqLength) && 0 <= k < |targets|
    ensures |Inserted(base, n, targets)| == SeqLength
    ensures AllUpper(Inserted(base, n, targets))
    ensures Inserted(base, n, targets)[targets[k]] == Inserted(base, n, targets)[targets[k] - n]
  {
    InsertedUpper(base, n, targets);
    InsertedIsHit(base, n, targets, k);
  }

  /** With `n == 1` a target copies its left neighbour, so the finished
      sequence has an immediate repeat even though the initial one had
      none. */
  lemma OneBackRepeats(base: seq<char>, targets: seq<int>)
    requires |targets| > 0 && TargetsFit(targets, 1, |base|)
    ensures !NoAdjacentRepeats(Inserted(base, 1, targets))
  {
    InsertedIsHit(base, 1, targets, 0);
    assert targets[0] - 1 > 0;
  }

  /** Spaced targets climb by at least `n + 2` per target from `n + 2`. */
  lemma {:induction false} TargetsSpread(ts: seq<int>, n: int, len: int, k: int)
    requires n >= 0 && TargetsFit(ts, n, len) && 0 <= k < |ts|
    ensures ts[k] >= (n + 2) * (k + 1)
    decreases k
  {
    if k > 0 {
      TargetsSpread(ts, n, len, k - 1);
      assert ts[k] - ts[k - 1] >= n + 2;
      assert (n + 2) * (k + 1) == (n + 2) * k + (n + 2);
    }
  }

  /** At most `69 / (n + 2)` targets fit into `[n + 2, 69]`. */
  lemma TargetCapacity(ps: set<int>, n: int)
    requires n >= 0 && Spaced(ps, n + 2)
    requires forall p :: p in ps ==> n + 2 <= p <= SeqLength - 1
    ensures (n + 2) * |ps| <= SeqLength - 1
  {
    var ts := SortedPositions(ps);
    AscendingSpacedFit(ps, ts, n);
    FitCapacity(ts, n);
  }

  /** Fitting targets, ascending and spaced, number at most `69 / (n + 2)`. */
  lemma FitCapacity(ts: seq<int>, n: int)
    requires n >= 0 && TargetsFit(ts, n, SeqLength)
    ensures (n + 2) * |ts| <= SeqLength - 1
  {
    if |ts| > 0 {
      TargetsSpread(ts, n, SeqLength, |ts| - 1);
    }
  }

  lemma ProductAtLeast(a: int, b: nat)
    requires a >= 7
    ensures a * b >= 7 * b
  {
  }

  /** With `n >= 5` no draws ever yield ten spaced positions, so a request
      for ten targets keeps drawing for ever. */
  lemma TenTargetsDoNotFit(ds: seq<int>, n: int)
    requires n >= 5
    requires forall i :: 0 <= i < |ds| ==> n + 2 <= ds[i] <= SeqLength - 1
    ensures |Placed(ds, n + 2)| < 10
  {
    var ps := Placed(ds, n + 2);
    PlacedInRange(ds, n + 2, n + 2, SeqLength - 1);
    TargetCapacity(ps, n);
    ProductAtLeast(n + 2, |ps|);
  }
}

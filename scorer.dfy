/** The guess scorer of the game: `checkWord`'s two passes over a submitted
    row (exact matches first, then displaced letters consuming the secret's
    unused occurrences) and its merge of per-key colours into the keyboard map. */
module Scorer {

  /** A cell or keyboard-key colour: 'transparent', 'grey', 'orange', 'green'. */
  datatype Color = None | Absent | Present | Correct

  /** The order in which a key's colour may only rise:
      transparent < grey < orange < green. */
  function Rank(c: Color): nat {
    match c
    case None => 0
    case Absent => 1
    case Present => 2
    case Correct => 3
  }

  function MaxColor(a: Color, b: Color): Color {
    if Rank(a) >= Rank(b) then a else b
  }

  /** The colour of key k; a key without an entry (undefined) reads as None. */
  function Lookup(keys: map<string, Color>, k: string): Color {
    if k in keys then keys[k] else None
  }

  /** `s.split('')`: the one-character strings of s. */
  function Chars(s: string): (r: seq<string>)
    ensures |r| == |s|
    ensures forall i :: 0 <= i < |s| ==> r[i] == [s[i]]
  {
    seq(|s|, i requires 0 <= i < |s| => [s[i]])
  }

  /** `s.indexOf(x)`: the first position holding x, or -1 when there is none. */
  function IndexOf(s: seq<string>, x: string): (r: int)
    ensures -1 <= r < |s|
    ensures r == -1 <==> x !in s
    ensures r >= 0 ==> s[r] == x && forall j :: 0 <= j < r ==> s[j] != x
  {
    if |s| == 0 then -1
    else if s[0] == x then 0
    else
      var r := IndexOf(s[1..], x);
      if r == -1 then -1 else r + 1
  }

  /** How many times x occurs in s. */
  function Occ(s: seq<string>, x: string): nat {
    if |s| == 0 then 0
    else Occ(s[..|s| - 1], x) + if s[|s| - 1] == x then 1 else 0
  }

  lemma {:induction false} OccPositive(s: seq<string>, x: string)
    ensures Occ(s, x) > 0 <==> x in s
  {
    if |s| > 0 {
      OccPositive(s[..|s| - 1], x);
      assert s == s[..|s| - 1] + [s[|s| - 1]];
    }
  }

  /** Blanking slot k (marking it used) removes one occurrence of its letter
      and none of any other non-blank letter. */
  lemma {:induction false} OccClear(s: seq<string>, k: nat, x: string)
    requires k < |s| && x != ""
    ensures Occ(s[k := ""], x) == Occ(s, x) - if s[k] == x then 1 else 0
  {
    var n := |s| - 1;
    if k < n {
      OccClear(s[..n], k, x);
      assert s[k := ""][..n] == s[..n][k := ""];
    } else {
      assert s[k := ""][..n] == s[..n];
    }
  }

  // ---------------------------------------------------------------------------
  // Specification of the row colours
  // ---------------------------------------------------------------------------

  /** Copies of x the secret holds at positions the guess does not match
      exactly: what pass 1 leaves for pass 2 to consume. */
  function Unmatched(g: seq<string>, t: seq<string>, x: string): nat
    requires |g| == |t|
  {
    if |g| == 0 then 0
    else
      var n := |g| - 1;
      Unmatched(g[..n], t[..n], x) + if g[n] != t[n] && t[n] == x then 1 else 0
  }

  /** Copies of x the guess matches exactly. */
  function Matched(g: seq<string>, t: seq<string>, x: string): nat
    requires |g| == |t|
  {
    if |g| == 0 then 0
    else
      var n := |g| - 1;
      Matched(g[..n], t[..n], x) + if g[n] == t[n] && g[n] == x then 1 else 0
  }

  /** Copies of x in the guess that pass 2 has to place. */
  function Unplaced(g: seq<string>, t: seq<string>, x: string): nat
    requires |g| == |t|
  {
    if |g| == 0 then 0
    else
      var n := |g| - 1;
      Unplaced(g[..n], t[..n], x) + if g[n] != t[n] && g[n] == x then 1 else 0
  }

  /** Copies of x still unconsumed in the secret when pass 2 reaches position
      i: a guess letter that is not an exact match consumes one copy of itself
      while there is one. */
  function Left(g: seq<string>, t: seq<string>, i: nat, x: string): nat
    requires |g| == |t| && i <= |g|
  {
    if i == 0 then Unmatched(g, t, x)
    else
      var c := Left(g, t, i - 1, x);
      if g[i - 1] != t[i - 1] && g[i - 1] == x && c > 0 then c - 1 else c
  }

  /** The colour of position i of guess g against secret t. */
  function Verdict(g: seq<string>, t: seq<string>, i: nat): Color
    requires |g| == |t| && i < |g|
  {
    if g[i] == t[i] then Correct
    else if Left(g, t, i, g[i]) > 0 then Present
    else Absent
  }

  /** The colours of one scored row. */
  function Verdicts(g: seq<string>, t: seq<string>): (r: seq<Color>)
    requires |g| == |t|
    ensures |r| == |g|
  {
    seq(|g|, i requires 0 <= i < |g| => Verdict(g, t, i))
  }

  /** Every position of a scored row is coloured, and it is green exactly
      when the guess letter equals the secret's letter there. */
  lemma GreenIffExact(g: seq<string>, t: seq<string>)
    requires |g| == |t|
    ensures forall j :: 0 <= j < |g| ==>
      Verdicts(g, t)[j] != None && (Verdicts(g, t)[j] == Correct <==> g[j] == t[j])
  {
  }

  /** Copies of x in the guess coloured orange or green. */
  function Hits(g: seq<string>, colors: seq<Color>, x: string): nat
    requires |g| == |colors|
  {
    if |g| == 0 then 0
    else
      var n := |g| - 1;
      Hits(g[..n], colors[..n], x) + if g[n] == x && (colors[n] == Present || colors[n] == Correct) then 1 else 0
  }

  // ---------------------------------------------------------------------------
  // Specification of the keyboard merge
  // ---------------------------------------------------------------------------

  /** The highest colour given to any position of g that holds key k. */
  function Best(k: string, g: seq<string>, colors: seq<Color>): Color
    requires |g| == |colors|
  {
    if |g| == 0 then None
    else
      var n := |g| - 1;
      MaxColor(Best(k, g[..n], colors[..n]), if g[n] == k then colors[n] else None)
  }

  /** Best is the colour of some position holding k (or None), and no
      position holding k has a higher one. */
  lemma {:induction false} BestIsMax(k: string, g: seq<string>, colors: seq<Color>)
    requires |g| == |colors|
    ensures forall j :: 0 <= j < |g| && g[j] == k ==> Rank(colors[j]) <= Rank(Best(k, g, colors))
    ensures Best(k, g, colors) == None || exists j :: 0 <= j < |g| && g[j] == k && colors[j] == Best(k, g, colors)
  {
    if |g| > 0 {
      var n := |g| - 1;
      BestIsMax(k, g[..n], colors[..n]);
      var b := Best(k, g[..n], colors[..n]);
      if b != None && Best(k, g, colors) == b {
        var j :| 0 <= j < n && g[..n][j] == k && colors[..n][j] == b;
        assert g[j] == k && colors[j] == b;
      }
    }
  }

  /** One keyboard write of `checkWord`: key k takes colour c unless it already
      holds a higher one (green always wins, orange beats grey, grey only
      fills a key that is unset or grey). */
  function Raise(m: map<string, Color>, k: string, c: Color): map<string, Color> {
    m[k := MaxColor(Lookup(m, k), c)]
  }

  /** The guarded writes of `checkWord` are exactly Raise: orange is written
      only over a key that is not green, grey only over one that is neither
      green nor orange, and green unconditionally. */
  lemma RaiseIsGuardedWrite(m: map<string, Color>, k: string)
    ensures Raise(m, k, Correct) == m[k := Correct]
    ensures Raise(m, k, Present) == if Lookup(m, k) != Correct then m[k := Present] else m
    ensures Raise(m, k, Absent) ==
      if Lookup(m, k) != Correct && Lookup(m, k) != Present then m[k := Absent] else m
  {
    if k in m {
      assert m[k := m[k]] == m;
    }
  }

  /** The keyboard after applying the colours of a row position by position;
      a position without a colour (None) writes nothing. */
  function MergeKeys(keys: map<string, Color>, g: seq<string>, colors: seq<Color>): map<string, Color>
    requires |g| == |colors|
  {
    if |g| == 0 then keys
    else
      var n := |g| - 1;
      var m := MergeKeys(keys, g[..n], colors[..n]);
      if colors[n] == None then m else Raise(m, g[n], colors[n])
  }

  /** The working copy tl agrees with the unconsumed count of every letter
      at position i of pass 2. */
  ghost predicate Tracks(tl: seq<string>, g: seq<string>, t: seq<string>, i: nat)
    requires |g| == |t| && i <= |g|
  {
    forall x :: x != "" ==> Occ(tl, x) == Left(g, t, i, x)
  }

  /** One step of the displaced pass: a non-exact letter is orange exactly
      when the working copy still holds it; blanking the copy found keeps the
      working copy in step, and so does leaving it alone otherwise. */
  lemma DisplacedStep(g: seq<string>, t: seq<string>, i: nat, tl: seq<string>, k: int)
    requires |g| == |t| && i < |g| && g[i] != ""
    requires Tracks(tl, g, t, i)
    requires k == IndexOf(tl, g[i])
    ensures g[i] == t[i] ==> Verdicts(g, t)[i] == Correct && Tracks(tl, g, t, i + 1)
    ensures g[i] != t[i] && k != -1 ==> Verdicts(g, t)[i] == Present && Tracks(tl[k := ""], g, t, i + 1)
    ensures g[i] != t[i] && k == -1 ==> Verdicts(g, t)[i] == Absent && Tracks(tl, g, t, i + 1)
  {
    OccPositive(tl, g[i]);
    assert Occ(tl, g[i]) == Left(g, t, i, g[i]);
    if g[i] != t[i] && k != -1 {
      var cleared := tl[k := ""];
      forall x | x != ""
        ensures Occ(cleared, x) == Left(g, t, i + 1, x)
      {
        OccClear(tl, k, x);
      }
    }
  }

  /** Merging one more position writes that position's key alone. */
  lemma MergeStep(keys: map<string, Color>, g: seq<string>, colors: seq<Color>, i: nat)
    requires |g| == |colors| && i < |g|
    ensures MergeKeys(keys, g[..i + 1], colors[..i + 1]) ==
      if colors[i] == None then MergeKeys(keys, g[..i], colors[..i])
      else Raise(MergeKeys(keys, g[..i], colors[..i]), g[i], colors[i])
  {
    assert g[..i + 1][..i] == g[..i] && colors[..i + 1][..i] == colors[..i];
  }

  /** Whatever the order of the writes, each key ends at the higher of its old
      colour and the best colour it received, and gains an entry exactly when
      it received a colour. */
  lemma {:induction false} MergeLookup(keys: map<string, Color>, g: seq<string>, colors: seq<Color>, k: string)
    requires |g| == |colors|
    ensures Lookup(MergeKeys(keys, g, colors), k) == MaxColor(Lookup(keys, k), Best(k, g, colors))
    ensures k in MergeKeys(keys, g, colors) <==> k in keys || Best(k, g, colors) != None
  {
    if |g| > 0 {
      var n := |g| - 1;
      MergeLookup(keys, g[..n], colors[..n], k);
    }
  }

  lemma MaxSwap(a1: Color, b1: Color, a2: Color, b2: Color)
    ensures MaxColor(MaxColor(a1, b1), MaxColor(a2, b2)) == MaxColor(MaxColor(a1, a2), MaxColor(b1, b2))
  {
  }

  /** The best colour under pointwise maxima is the maximum of the best colours. */
  lemma {:induction false} BestJoin(k: string, g: seq<string>, a: seq<Color>, b: seq<Color>, c: seq<Color>)
    requires |g| == |a| == |b| == |c|
    requires forall j :: 0 <= j < |g| ==> c[j] == MaxColor(a[j], b[j])
    ensures Best(k, g, c) == MaxColor(Best(k, g, a), Best(k, g, b))
  {
    if |g| > 0 {
      var n := |g| - 1;
      BestJoin(k, g[..n], a[..n], b[..n], c[..n]);
      MaxSwap(Best(k, g[..n], a[..n]), Best(k, g[..n], b[..n]),
              if g[n] == k then a[n] else None, if g[n] == k then b[n] else None);
    }
  }

  /** Merging two colourings of the same row one after the other equals
      merging their pointwise maximum once. */
  lemma MergeTwice(keys: map<string, Color>, g: seq<string>, a: seq<Color>, b: seq<Color>, c: seq<Color>)
    requires |g| == |a| == |b| == |c|
    requires forall j :: 0 <= j < |g| ==> c[j] == MaxColor(a[j], b[j])
    ensures MergeKeys(MergeKeys(keys, g, a), g, b) == MergeKeys(keys, g, c)
  {
    var m1 := MergeKeys(keys, g, a);
    var lhs, rhs := MergeKeys(m1, g, b), MergeKeys(keys, g, c);
    forall k
      ensures (k in lhs <==> k in rhs) && Lookup(lhs, k) == Lookup(rhs, k)
    {
      MergeLookup(keys, g, a, k);
      MergeLookup(m1, g, b, k);
      MergeLookup(keys, g, c, k);
      BestJoin(k, g, a, b, c);
    }
    assert forall k | k in lhs :: lhs[k] == Lookup(lhs, k);
  }

  /** Pass 1's green mask. */
  function Exact(g: seq<string>, t: seq<string>): (r: seq<Color>)
    requires |g| == |t|
    ensures |r| == |g|
  {
    seq(|g|, j requires 0 <= j < |g| => if g[j] == t[j] then Correct else None)
  }

  /** Pass 2's colours: the verdicts of the positions pass 1 left. */
  function Displaced(g: seq<string>, t: seq<string>): (r: seq<Color>)
    requires |g| == |t|
    ensures |r| == |g|
  {
    seq(|g|, j requires 0 <= j < |g| => if g[j] == t[j] then None else Verdicts(g, t)[j])
  }

  /** The keyboard after pass 1 and then pass 2 is the keyboard after the
      whole scored row. */
  lemma MergePasses(keys: map<string, Color>, g: seq<string>, t: seq<string>)
    requires |g| == |t|
    ensures MergeKeys(MergeKeys(keys, g, Exact(g, t)), g, Displaced(g, t)) == MergeKeys(keys, g, Verdicts(g, t))
  {
    GreenIffExact(g, t);
    MergeTwice(keys, g, Exact(g, t), Displaced(g, t), Verdicts(g, t));
  }

  /** After both passes every guessed letter has a keyboard entry. */
  lemma ScoredKeysCover(keys: map<string, Color>, g: seq<string>, t: seq<string>)
    requires |g| == |t|
    ensures forall j :: 0 <= j < |g| ==> g[j] in MergeKeys(keys, g, Verdicts(g, t))
  {
    forall j | 0 <= j < |g|
      ensures g[j] in MergeKeys(keys, g, Verdicts(g, t))
    {
      GreenIffExact(g, t);
      MergeLookup(keys, g, Verdicts(g, t), g[j]);
      BestIsMax(g[j], g, Verdicts(g, t));
    }
  }

  /** t with the exact matches among its first i positions blanked out. */
  function BlankedUpTo(g: seq<string>, t: seq<string>, i: nat): (r: seq<string>)
    requires |g| == |t|
    ensures |r| == |t|
  {
    seq(|t|, j requires 0 <= j < |t| => if j < i && g[j] == t[j] then "" else t[j])
  }

  /** The row colours once the first i positions of pass 1 have run. */
  function GreenUpTo(g: seq<string>, t: seq<string>, i: nat): (r: seq<Color>)
    requires |g| == |t|
    ensures |r| == |g|
  {
    seq(|g|, j requires 0 <= j < |g| => if j < i && g[j] == t[j] then Correct else Absent)
  }

  /** One position of pass 1 blanks / colours that position alone. */
  lemma ExactStep(g: seq<string>, t: seq<string>, i: nat)
    requires |g| == |t| && i < |g|
    ensures BlankedUpTo(g, t, i + 1) == if g[i] == t[i] then BlankedUpTo(g, t, i)[i := ""] else BlankedUpTo(g, t, i)
    ensures BlankedUpTo(t, g, i + 1) == if g[i] == t[i] then BlankedUpTo(t, g, i)[i := ""] else BlankedUpTo(t, g, i)
    ensures GreenUpTo(g, t, i + 1) == if g[i] == t[i] then GreenUpTo(g, t, i)[i := Correct] else GreenUpTo(g, t, i)
  {
  }

  /** Pass 1's working copy of t: its exact matches with g blanked out. */
  function Consumed(g: seq<string>, t: seq<string>): (r: seq<string>)
    requires |g| == |t|
    ensures |r| == |t|
  {
    BlankedUpTo(g, t, |g|)
  }

  /** After pass 1 the working copy of the secret holds exactly the
      unmatched copies of each letter. */
  lemma {:induction false} ConsumedOcc(g: seq<string>, t: seq<string>, x: string)
    requires |g| == |t| && x != ""
    ensures Occ(Consumed(g, t), x) == Unmatched(g, t, x)
  {
    if |g| > 0 {
      var n := |g| - 1;
      ConsumedOcc(g[..n], t[..n], x);
      assert Consumed(g, t)[..n] == Consumed(g[..n], t[..n]);
    }
  }

  // ---------------------------------------------------------------------------
  // checkWord's loops
  // ---------------------------------------------------------------------------

  /** Scores guess against target as `checkWord` does: pass 1 colours exact
      matches green and blanks them in working copies of both words; pass 2
      colours each remaining letter orange when the secret copy still holds
      it (blanking that occurrence) and grey otherwise; keyboard keys are
      raised along the way and a final pass gives every guessed key an entry. */
  method ScoreGuess(guess: string, target: string, keys: map<string, Color>)
    returns (colors: seq<Color>, newKeys: map<string, Color>)
    requires |guess| == |target|
    ensures colors == Verdicts(Chars(guess), Chars(target))
    ensures newKeys == MergeKeys(keys, Chars(guess), colors)
  {
    var targetLetters, currentRowLetters := Chars(target), Chars(guess);
    var rowColors, kb;
    currentRowLetters, targetLetters, rowColors, kb := MarkExact(currentRowLetters, targetLetters, keys);
    colors, kb := MarkDisplaced(currentRowLetters, targetLetters, rowColors, kb, Chars(guess), Chars(target), keys);
    ScoredKeysCover(keys, Chars(guess), Chars(target));
    newKeys := GreyUnseen(guess, kb);
  }

  /** Pass 1 (the first loop of `checkWord`): each exact match turns green on
      the row and on the keyboard and is blanked in both working copies. */
  method MarkExact(g: seq<string>, t: seq<string>, keys: map<string, Color>)
    returns (currentRowLetters: seq<string>, targetLetters: seq<string>, rowColors: seq<Color>, kb: map<string, Color>)
    requires |g| == |t|
    ensures currentRowLetters == Consumed(t, g) && targetLetters == Consumed(g, t)
    ensures rowColors == GreenUpTo(g, t, |g|)
    ensures kb == MergeKeys(keys, g, Exact(g, t))
  {
    var n := |g|;
    currentRowLetters, targetLetters := g, t;
    rowColors := seq(n, _ => Absent);
    kb := keys;
    ghost var exact := Exact(g, t);
    assert currentRowLetters == BlankedUpTo(t, g, 0) && targetLetters == BlankedUpTo(g, t, 0);
    for i := 0 to n
      invariant currentRowLetters == BlankedUpTo(t, g, i)
      invariant targetLetters == BlankedUpTo(g, t, i)
      invariant rowColors == GreenUpTo(g, t, i)
      invariant kb == MergeKeys(keys, g[..i], exact[..i])
    {
      MergeStep(keys, g, exact, i);
      ExactStep(g, t, i);
      if currentRowLetters[i] == targetLetters[i] {
        rowColors := rowColors[i := Correct];
        kb := kb[currentRowLetters[i] := Correct];
        targetLetters := targetLetters[i := ""];
        currentRowLetters := currentRowLetters[i := ""];
      }
    }
    assert g[..n] == g && exact[..n] == exact;
  }

  /** Pass 2 (the second loop of `checkWord`): each letter left by pass 1 turns
      orange and consumes the first unused occurrence of itself in the secret
      copy when there is one, and grey otherwise; a key turns orange unless it
      is green, and grey unless it is green or orange. */
  method MarkDisplaced(currentRowLetters: seq<string>, targetLetters0: seq<string>, rowColors0: seq<Color>,
                       kb0: map<string, Color>, ghost g: seq<string>, ghost t: seq<string>, ghost keys: map<string, Color>)
    returns (rowColors: seq<Color>, kb: map<string, Color>)
    requires |g| == |t| == |currentRowLetters| == |targetLetters0| == |rowColors0|
    requires forall j :: 0 <= j < |g| ==> g[j] != ""
    requires forall j :: 0 <= j < |t| ==> t[j] != ""
    requires currentRowLetters == Consumed(t, g) && targetLetters0 == Consumed(g, t)
    requires rowColors0 == GreenUpTo(g, t, |g|)
    requires kb0 == MergeKeys(keys, g, Exact(g, t))
    ensures rowColors == Verdicts(g, t)
    ensures kb == MergeKeys(keys, g, Verdicts(g, t))
  {
    var n := |rowColors0|;
    ghost var v := Verdicts(g, t);
    ghost var displaced := Displaced(g, t);
    var targetLetters := targetLetters0;
    rowColors := rowColors0;
    forall x | x != ""
      ensures Occ(targetLetters, x) == Left(g, t, 0, x)
    {
      ConsumedOcc(g, t, x);
    }
    kb := kb0;
    for i := 0 to n
      invariant |rowColors| == |targetLetters| == n
      invariant forall j :: 0 <= j < i ==> rowColors[j] == v[j]
      invariant forall j :: i <= j < n ==> rowColors[j] == rowColors0[j]
      invariant Tracks(targetLetters, g, t, i)
      invariant kb == MergeKeys(kb0, g[..i], displaced[..i])
    {
      MergeStep(kb0, g, displaced, i);
      var color;
      color, targetLetters, kb := PlaceDisplaced(currentRowLetters[i], rowColors[i], targetLetters, kb, g, t, i);
      rowColors := rowColors[i := color];
    }
    assert g[..n] == g && displaced[..n] == displaced;
    MergePasses(keys, g, t);
  }

  /** Position i of pass 2, given its letter left by pass 1 ("" when it was
      green), its colour after pass 1 and the unconsumed secret letters. */
  method PlaceDisplaced(letter: string, color0: Color, targetLetters0: seq<string>, kb0: map<string, Color>,
                        ghost g: seq<string>, ghost t: seq<string>, ghost i: nat)
    returns (color: Color, targetLetters: seq<string>, kb: map<string, Color>)
    requires |g| == |t| && i < |g| && g[i] != ""
    requires letter == if g[i] == t[i] then "" else g[i]
    requires color0 == if g[i] == t[i] then Correct else Absent
    requires Tracks(targetLetters0, g, t, i)
    ensures color == Verdicts(g, t)[i]
    ensures |targetLetters| == |targetLetters0| && Tracks(targetLetters, g, t, i + 1)
    ensures kb == if g[i] == t[i] then kb0 else Raise(kb0, g[i], color)
  {
    DisplacedStep(g, t, i, targetLetters0, IndexOf(targetLetters0, g[i]));
    color, targetLetters, kb := color0, targetLetters0, kb0;
    if letter != "" {
      var targetIndex := IndexOf(targetLetters, letter);
      if targetIndex != -1 {
        color := Present;
        kb := PaintKey(kb, letter, Present);
        targetLetters := targetLetters[targetIndex := ""];
      } else {
        kb := PaintKey(kb, letter, Absent);
      }
    }
  }

  /** A keyboard write of pass 2: orange only over a key that is not green,
      grey only over one that is neither green nor orange. */
  method PaintKey(kb0: map<string, Color>, letter: string, c: Color) returns (kb: map<string, Color>)
    requires c == Present || c == Absent
    ensures kb == Raise(kb0, letter, c)
  {
    RaiseIsGuardedWrite(kb0, letter);
    kb := kb0;
    if c == Present {
      if Lookup(kb, letter) != Correct {
        kb := kb[letter := Present];
      }
    } else {
      if Lookup(kb, letter) != Correct && Lookup(kb, letter) != Present {
        kb := kb[letter := Absent];
      }
    }
  }

  /** The third loop of `checkWord`: every letter of the guess that still has
      no keyboard entry gets grey. */
  method GreyUnseen(guess: string, kb0: map<string, Color>) returns (kb: map<string, Color>)
    ensures kb.Keys == kb0.Keys + set i | 0 <= i < |guess| :: [guess[i]]
    ensures forall k :: k in kb0 ==> kb[k] == kb0[k]
    ensures forall k :: k in kb && k !in kb0 ==> kb[k] == Absent
  {
    kb := kb0;
    for i := 0 to |guess|
      invariant kb.Keys == kb0.Keys + set j | 0 <= j < i :: [guess[j]]
      invariant forall k :: k in kb0 ==> kb[k] == kb0[k]
      invariant forall k :: k in kb && k !in kb0 ==> kb[k] == Absent
    {
      var letter := [guess[i]];
      if letter !in kb {
        kb := kb[letter := Absent];
      }
    }
  }

  // ---------------------------------------------------------------------------
  // Properties of the scorer
  // ---------------------------------------------------------------------------

  /** A row is all green exactly when the guess is the secret. */
  lemma AllGreenIffEqual(g: seq<string>, t: seq<string>)
    requires |g| == |t|
    ensures (forall j :: 0 <= j < |g| ==> Verdicts(g, t)[j] == Correct) <==> g == t
  {
    GreenIffExact(g, t);
    if forall j :: 0 <= j < |g| ==> Verdicts(g, t)[j] == Correct {
      assert forall j :: 0 <= j < |g| ==> g[j] == t[j];
    }
  }

  /** The unconsumed copies only shrink as pass 2 moves right. */
  lemma {:induction false} LeftShrinks(g: seq<string>, t: seq<string>, i: nat, j: nat, x: string)
    requires |g| == |t| && i <= j <= |g|
    ensures Left(g, t, j, x) <= Left(g, t, i, x)
    decreases j
  {
    if i < j {
      LeftShrinks(g, t, i, j - 1, x);
    }
  }

  /** The copies pass 1 leaves are copies in the secret. */
  lemma {:induction false} UnmatchedWithinSecret(g: seq<string>, t: seq<string>, x: string)
    requires |g| == |t|
    ensures Unmatched(g, t, x) <= Occ(t, x)
  {
    if |g| > 0 {
      var n := |g| - 1;
      UnmatchedWithinSecret(g[..n], t[..n], x);
    }
  }

  /** Orange means the letter is in the secret but not at this position, and a
      letter absent from the secret is always grey. */
  lemma PresentMeansElsewhere(g: seq<string>, t: seq<string>, i: nat)
    requires |g| == |t| && i < |g|
    ensures Verdicts(g, t)[i] == Present ==> g[i] != t[i] && g[i] in t
    ensures g[i] !in t ==> Verdicts(g, t)[i] == Absent
  {
    LeftShrinks(g, t, 0, i, g[i]);
    UnmatchedWithinSecret(g, t, g[i]);
    OccPositive(t, g[i]);
  }

  /** Orange goes to the leftmost copies: when position j is orange, every
      earlier copy of its letter that is not green is orange too. */
  lemma OrangeLeftmost(g: seq<string>, t: seq<string>, i: nat, j: nat)
    requires |g| == |t| && i < j < |g|
    requires g[i] == g[j] && g[i] != t[i]
    requires Verdicts(g, t)[j] == Present
    ensures Verdicts(g, t)[i] == Present
  {
    LeftShrinks(g, t, i, j, g[i]);
  }

  function Min(a: nat, b: nat): nat {
    if a <= b then a else b
  }

  /** The copies of x left at position i: those pass 1 left, less the ones the
      letters placed so far have taken. */
  lemma {:induction false} LeftCount(g: seq<string>, t: seq<string>, i: nat, x: string)
    requires |g| == |t| && i <= |g|
    ensures Left(g, t, i, x) == Unmatched(g, t, x) - Min(Unplaced(g[..i], t[..i], x), Unmatched(g, t, x))
  {
    if i > 0 {
      LeftCount(g, t, i - 1, x);
      assert g[..i][..i - 1] == g[..i - 1] && t[..i][..i - 1] == t[..i - 1];
    }
  }

  /** Green and orange copies of x among the first i positions: the exact
      matches plus the placed copies, capped by what pass 1 left. */
  lemma {:induction false} HitsPrefix(g: seq<string>, t: seq<string>, i: nat, x: string)
    requires |g| == |t| && i <= |g|
    ensures Hits(g[..i], Verdicts(g, t)[..i], x) ==
      Matched(g[..i], t[..i], x) + Min(Unplaced(g[..i], t[..i], x), Unmatched(g, t, x))
  {
    if i > 0 {
      HitsPrefix(g, t, i - 1, x);
      LeftCount(g, t, i - 1, x);
      var v := Verdicts(g, t);
      assert g[..i][..i - 1] == g[..i - 1] && t[..i][..i - 1] == t[..i - 1] && v[..i][..i - 1] == v[..i - 1];
    }
  }

  /** Each letter's copies in the guess split into exact matches and the
      rest, and so do its copies in the secret. */
  lemma {:induction false} GuessSplit(g: seq<string>, t: seq<string>, x: string)
    requires |g| == |t|
    ensures Occ(g, x) == Matched(g, t, x) + Unplaced(g, t, x)
    ensures Occ(t, x) == Matched(g, t, x) + Unmatched(g, t, x)
  {
    if |g| > 0 {
      var n := |g| - 1;
      GuessSplit(g[..n], t[..n], x);
    }
  }

  /** Letter consumption: each letter is coloured green or orange exactly as
      many times as it occurs in both the guess and the secret. */
  lemma Consumption(g: seq<string>, t: seq<string>, x: string)
    requires |g| == |t|
    ensures Hits(g, Verdicts(g, t), x) == Min(Occ(g, x), Occ(t, x))
  {
    var v := Verdicts(g, t);
    GuessSplit(g, t, x);
    HitsPrefix(g, t, |g|, x);
    assert g[..|g|] == g && t[..|g|] == t && v[..|g|] == v;
  }

  /** The keyboard never moves a key down (grey < orange < green), keys of
      letters that are not in the guess are untouched, and every guessed
      letter whose position was coloured has an entry. */
  lemma KeyboardMonotone(keys: map<string, Color>, g: seq<string>, colors: seq<Color>, k: string)
    requires |g| == |colors|
    ensures Rank(Lookup(keys, k)) <= Rank(Lookup(MergeKeys(keys, g, colors), k))
    ensures k !in g ==> (k in MergeKeys(keys, g, colors) <==> k in keys) &&
                        Lookup(MergeKeys(keys, g, colors), k) == Lookup(keys, k)
    ensures (exists j :: 0 <= j < |g| && g[j] == k && colors[j] != None) ==> k in MergeKeys(keys, g, colors)
  {
    MergeLookup(keys, g, colors, k);
    BestIsMax(k, g, colors);
  }
}

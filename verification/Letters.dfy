/** The falling letters of the typing game as values: what creating, moving and hitting letters
    means, apart from the linked list that stores them (effect.c). */
module Letters {

  /** One letter: position in FLOAT pixels from the top, column, velocity in FLOAT pixels per
      update, and its index in the alphabet. */
  datatype Letter = Letter(x: int, y: int, v: int, text: int)

  const SCR_HEIGHT: int := 200
  const SCR_WIDTH: int := 320

  /** The velocity of a letter that was hit: -3.0. */
  const UPWARDS: int := -0x3_0000

  /** The lowest position that is still on the screen, 200.0 - 7.9 in FLOAT. */
  const MAX_X: int := 12589466

  /** Which keys are marked as pressed, by letter. */
  type Keys = k: seq<bool> | |k| == 26 witness seq(26, _ => false)

  predicate Falling(l: Letter) {
    l.v > 0
  }

  /** Between two updates a letter is on the screen and falls at 0.5 to 1.0, or it was hit. */
  predicate LetterOk(l: Letter) {
    && 0 <= l.x <= MAX_X
    && 0 <= l.text < 26
    && (l.v == UPWARDS || 0x8000 <= l.v < 0x1_0000)
  }

  ghost predicate LettersOk(ls: seq<Letter>) {
    forall i :: 0 <= i < |ls| ==> LetterOk(ls[i])
  }

  // ----- moving -----

  function Advanced(l: Letter): Letter {
    l.(x := l.x + l.v)
  }

  predicate OnScreen(l: Letter) {
    0 <= l.x <= MAX_X
  }

  /** The letters still on the screen after one update, in their old order. */
  function Survivors(ls: seq<Letter>): (r: seq<Letter>)
    ensures |r| <= |ls|
  {
    if ls == [] then []
    else
      var l := Advanced(ls[|ls| - 1]);
      Survivors(ls[..|ls| - 1]) + if OnScreen(l) then [l] else []
  }

  /** The letters that leave the screen at the top. */
  function Hits(ls: seq<Letter>): nat {
    if ls == [] then 0
    else Hits(ls[..|ls| - 1]) + if Advanced(ls[|ls| - 1]).x < 0 then 1 else 0
  }

  /** The letters that leave the screen at the bottom. */
  function Misses(ls: seq<Letter>): nat {
    if ls == [] then 0
    else Misses(ls[..|ls| - 1]) + if Advanced(ls[|ls| - 1]).x > MAX_X then 1 else 0
  }

  /** Every letter is kept, hit or missed. */
  lemma {:induction false} Conservation(ls: seq<Letter>)
    ensures |Survivors(ls)| + Hits(ls) + Misses(ls) == |ls|
  {
    if ls != [] {
      Conservation(ls[..|ls| - 1]);
    }
  }

  /** `from` tells the letter that each survivor comes from: in order, all of those, and only those, that
      are on the screen after moving by their velocity; nothing else about them changes. */
  ghost predicate ComeFrom(survivors: seq<Letter>, ls: seq<Letter>, from: seq<nat>) {
    && |from| == |survivors|
    && (forall i :: 0 <= i < |from| ==>
          from[i] < |ls| && survivors[i] == ls[from[i]].(x := ls[from[i]].x + ls[from[i]].v))
    && (forall i, j :: 0 <= i < j < |from| ==> from[i] < from[j])
    && (forall k :: 0 <= k < |ls| ==> (k in from <==> 0 <= ls[k].x + ls[k].v <= 12589466))
  }

  lemma OneMoreLetter(survivors: seq<Letter>, ls: seq<Letter>, from: seq<nat>)
    requires ls != [] && ComeFrom(survivors, ls[..|ls| - 1], from)
    ensures var n := |ls| - 1; var l := Advanced(ls[n]);
            if OnScreen(l) then ComeFrom(survivors + [l], ls, from + [n]) else ComeFrom(survivors, ls, from)
  {
    var n := |ls| - 1;
    assert forall k :: 0 <= k < n ==> ls[..n][k] == ls[k];
    assert n !in from;
  }

  /** The survivors of an update are the letters, each moved by its own velocity, that are then on the
      screen, in their old order. */
  lemma {:induction false} SurvivorsInOrder(ls: seq<Letter>) returns (from: seq<nat>)
    ensures ComeFrom(Survivors(ls), ls, from)
  {
    if ls == [] {
      from := [];
    } else {
      var n := |ls| - 1;
      from := SurvivorsInOrder(ls[..n]);
      OneMoreLetter(Survivors(ls[..n]), ls, from);
      hide ComeFrom, Advanced, OnScreen;
      if OnScreen(Advanced(ls[n])) {
        from := from + [n];
      }
    }
  }

  /** The letters that leave at the top after moving by their velocity, and those that leave at the bottom. */
  ghost function LeavingTop(ls: seq<Letter>): set<int> {
    set k | 0 <= k < |ls| && ls[k].x + ls[k].v < 0
  }

  ghost function LeavingBottom(ls: seq<Letter>): set<int> {
    set k | 0 <= k < |ls| && ls[k].x + ls[k].v > 12589466
  }

  lemma OneMoreLeaving(ls: seq<Letter>)
    requires ls != []
    ensures var n := |ls| - 1; var x := ls[n].x + ls[n].v;
            && LeavingTop(ls) == (if x < 0 then LeavingTop(ls[..n]) + {n} else LeavingTop(ls[..n]))
            && LeavingBottom(ls) == (if x > 12589466 then LeavingBottom(ls[..n]) + {n} else LeavingBottom(ls[..n]))
            && n !in LeavingTop(ls[..n]) && n !in LeavingBottom(ls[..n])
  {
    var n := |ls| - 1;
    assert forall k :: 0 <= k < n ==> ls[..n][k] == ls[k];
  }

  lemma {:induction false} LeavingCounted(ls: seq<Letter>)
    ensures Hits(ls) == |LeavingTop(ls)| && Misses(ls) == |LeavingBottom(ls)|
  {
    if ls != [] {
      LeavingCounted(ls[..|ls| - 1]);
      OneMoreLeaving(ls);
      hide LeavingTop, LeavingBottom;
    }
  }

  // ----- hitting -----

  /** A letter that the pressed keys can hit. */
  predicate Eligible(l: Letter, keys: Keys) {
    Falling(l) && 0 <= l.text < 26 && l.x > -0x64_0000 && keys[l.text]
  }

  /** k is the lowest eligible letter on the screen, the first of them in list order. */
  ghost predicate IsTarget(ls: seq<Letter>, keys: Keys, k: int) {
    if k == -1 then
      forall j :: 0 <= j < |ls| ==> !Eligible(ls[j], keys)
    else
      && 0 <= k < |ls| && Eligible(ls[k], keys)
      && forall j :: 0 <= j < |ls| && Eligible(ls[j], keys) ==> ls[j].x <= ls[k].x && (j < k ==> ls[j].x < ls[k].x)
  }

  function Target(ls: seq<Letter>, keys: Keys): (k: int)
    ensures IsTarget(ls, keys, k)
  {
    if ls == [] then -1
    else
      var n := |ls| - 1;
      var k := Target(ls[..n], keys);
      assert k >= 0 ==> ls[..n][k] == ls[k];
      assert forall j :: 0 <= j < n ==> ls[..n][j] == ls[j];
      if Eligible(ls[n], keys) && (k == -1 || ls[n].x > ls[k].x) then n else k
  }

  /** The k-th letter is falling, its key is pressed, and no other such letter is lower, or as low and
      before it in the list. */
  ghost predicate LowestPressed(ls: seq<Letter>, keys: Keys, k: int) {
    && 0 <= k < |ls| && ls[k].v > 0 && 0 <= ls[k].text < 26 && keys[ls[k].text]
    && forall j :: 0 <= j < |ls| && ls[j].v > 0 && 0 <= ls[j].text < 26 && keys[ls[j].text] ==>
         ls[j].x < ls[k].x || (ls[j].x == ls[k].x && k <= j)
  }

  ghost predicate NonePressed(ls: seq<Letter>, keys: Keys) {
    forall j :: 0 <= j < |ls| && ls[j].v > 0 && 0 <= ls[j].text < 26 ==> !keys[ls[j].text]
  }

  /** The k-th letter goes upwards at 3.0 and its key is released; nothing else changes. */
  ghost predicate TurnedAndReleased(ls: seq<Letter>, keys: Keys, ls': seq<Letter>, keys': Keys, k: int) {
    && 0 <= k < |ls| && 0 <= ls[k].text < 26
    && ls' == ls[k := ls[k].(v := -0x3_0000)] && keys' == keys[ls[k].text := false]
  }

  /** For letters on the screen, which are above none of the -100.0 that the search starts from. */
  lemma TargetIsLowest(ls: seq<Letter>, keys: Keys)
    requires LettersOk(ls)
    ensures var k := Target(ls, keys); if k == -1 then NonePressed(ls, keys) else LowestPressed(ls, keys, k)
  {
    var k := Target(ls, keys);
    assert forall j :: 0 <= j < |ls| ==> LetterOk(ls[j]);
    forall j | 0 <= j < |ls| && ls[j].v > 0 && 0 <= ls[j].text < 26 && keys[ls[j].text]
      ensures k != -1 && (ls[j].x < ls[k].x || (ls[j].x == ls[k].x && k <= j))
    {
      assert Eligible(ls[j], keys);
    }
  }

  /** One successful update_keypress: the lowest falling letter with a pressed key turns upwards at 3.0,
      and its key is released. */
  lemma HitOnceMeans(h: Hitting)
    requires LettersOk(h.letters)
    ensures var k := Target(h.letters, h.keys); var r := HitOnce(h);
            if k == -1 then NonePressed(h.letters, h.keys) && r == h
            else
              && LowestPressed(h.letters, h.keys, k)
              && r.letters == h.letters[k := h.letters[k].(v := -0x3_0000)]
              && r.keys == h.keys[h.letters[k].text := false]
  {
    TargetIsLowest(h.letters, h.keys);
  }

  /** Turning one letter upwards. */
  function Turned(ls: seq<Letter>, k: int): (r: seq<Letter>)
    ensures |r| == |ls|
  {
    if 0 <= k < |ls| then ls[k := ls[k].(v := UPWARDS)] else ls
  }

  function Released(keys: Keys, text: int): Keys {
    if 0 <= text < 26 then keys[text := false] else keys
  }

  function PressedCount(keys: seq<bool>): (n: nat)
    ensures n <= |keys|
  {
    if keys == [] then 0 else PressedCount(keys[..|keys| - 1]) + if keys[|keys| - 1] then 1 else 0
  }

  lemma {:induction false} ReleaseLowersCount(keys: seq<bool>, i: nat)
    requires i < |keys| && keys[i]
    ensures PressedCount(keys[i := false]) == PressedCount(keys) - 1
  {
    var n := |keys| - 1;
    if i == n {
      assert keys[i := false][..n] == keys[..n];
    } else {
      assert keys[i := false][..n] == keys[..n][i := false];
      ReleaseLowersCount(keys[..n], i);
    }
  }

  /** The state the key loop works on. */
  datatype Hitting = Hitting(letters: seq<Letter>, keys: Keys)

  /** One successful update_keypress. */
  function HitOnce(h: Hitting): Hitting
  {
    var k := Target(h.letters, h.keys);
    if k == -1 then h else Hitting(Turned(h.letters, k), Released(h.keys, h.letters[k].text))
  }

  lemma HitOnceReleases(h: Hitting)
    requires Target(h.letters, h.keys) != -1
    ensures PressedCount(HitOnce(h).keys) == PressedCount(h.keys) - 1
  {
    ReleaseLowersCount(h.keys, h.letters[Target(h.letters, h.keys)].text);
  }

  /** The whole loop `while (update_keypress());`. */
  function HitAll(h: Hitting): Hitting
    decreases PressedCount(h.keys)
  {
    if Target(h.letters, h.keys) == -1 then h
    else
      HitOnceReleases(h);
      HitAll(HitOnce(h))
  }

  /** How many letters the loop hits. */
  function HitCount(h: Hitting): nat
    decreases PressedCount(h.keys)
  {
    if Target(h.letters, h.keys) == -1 then 0
    else
      HitOnceReleases(h);
      1 + HitCount(HitOnce(h))
  }

  /** The k-th letter is the lowest falling letter of its text, the first of them, and its key is pressed. */
  ghost predicate Chosen(h: Hitting, k: int) {
    && 0 <= k < |h.letters| && h.letters[k].v > 0 && 0 <= h.letters[k].text < 26 && h.keys[h.letters[k].text]
    && forall j :: 0 <= j < |h.letters| && h.letters[j].v > 0 && h.letters[j].text == h.letters[k].text ==>
         h.letters[j].x < h.letters[k].x || (h.letters[j].x == h.letters[k].x && k <= j)
  }

  /** Some letter of this text is falling. */
  ghost predicate IsFalling(ls: seq<Letter>, text: int) {
    exists j :: 0 <= j < |ls| && ls[j].v > 0 && ls[j].text == text
  }

  ghost function Changed(s: seq<Letter>, t: seq<Letter>): set<int>
    requires |s| == |t|
  {
    set i | 0 <= i < |s| && t[i] != s[i]
  }

  /** What a hit leaves for the rest of the loop to choose, and to release. */
  lemma HitLeaves(h: Hitting)
    requires LettersOk(h.letters) && Target(h.letters, h.keys) != -1
    ensures var k := Target(h.letters, h.keys); var r := HitOnce(h); var text := h.letters[k].text;
            && Chosen(h, k) && !Chosen(r, k) && |r.letters| == |h.letters| && LettersOk(r.letters)
            && (forall i :: i != k ==> (Chosen(r, i) <==> Chosen(h, i)))
            && (forall t :: 0 <= t < 26 ==>
                  ((r.keys[t] && !IsFalling(r.letters, t)) <==> (h.keys[t] && !IsFalling(h.letters, t))))
  {
    HitOnceMeans(h);
    hide HitOnce, Target;
    var k, r := Target(h.letters, h.keys), HitOnce(h);
    var text := h.letters[k].text;
    assert forall j :: 0 <= j < |h.letters| && j != k ==> r.letters[j] == h.letters[j];
    forall i | i != k
      ensures Chosen(r, i) <==> Chosen(h, i)
    {
      if 0 <= i < |h.letters| && h.letters[i].text == text {
        assert !Chosen(r, i);
        assert !Chosen(h, i);
      }
    }
    forall t | 0 <= t < 26
      ensures (r.keys[t] && !IsFalling(r.letters, t)) <==> (h.keys[t] && !IsFalling(h.letters, t))
    {
      FallingKept(h.letters, r.letters, k, t);
    }
  }

  lemma FallingKept(ls: seq<Letter>, r: seq<Letter>, k: int, t: int)
    requires 0 <= k < |ls| && ls[k].v > 0 && r == ls[k := ls[k].(v := -0x3_0000)]
    ensures t != ls[k].text ==> (IsFalling(r, t) <==> IsFalling(ls, t))
    ensures IsFalling(ls, ls[k].text)
  {
    if t != ls[k].text && IsFalling(ls, t) {
      var j :| 0 <= j < |ls| && ls[j].v > 0 && ls[j].text == t;
      assert r[j] == ls[j];
    }
    if IsFalling(r, t) {
      var j :| 0 <= j < |r| && r[j].v > 0 && r[j].text == t;
      assert r[j] == ls[j];
    }
  }

  /** In whatever order the loop hits: of each text with a pressed key the lowest falling letter turns
      upwards at 3.0, no other letter changes, exactly the keys with a falling letter are released, and
      one letter changes per hit. */
  ghost predicate AllHit(h: Hitting, r: Hitting, hits: nat) {
    && |r.letters| == |h.letters|
    && (forall i :: 0 <= i < |h.letters| ==>
          r.letters[i] == if Chosen(h, i) then h.letters[i].(v := -0x3_0000) else h.letters[i])
    && (forall t :: 0 <= t < 26 ==> (r.keys[t] <==> h.keys[t] && !IsFalling(h.letters, t)))
    && hits == |Changed(h.letters, r.letters)|
  }

  lemma {:induction false} HitAllMeans(h: Hitting)
    requires LettersOk(h.letters)
    ensures var r := HitAll(h);
            && |r.letters| == |h.letters|
            && (forall i :: 0 <= i < |h.letters| ==>
                  r.letters[i] == if Chosen(h, i) then h.letters[i].(v := -0x3_0000) else h.letters[i])
            && (forall t :: 0 <= t < 26 ==> (r.keys[t] <==> h.keys[t] && !IsFalling(h.letters, t)))
    decreases PressedCount(h.keys)
  {
    HitOnceMeans(h);
    if Target(h.letters, h.keys) == -1 {
      assert forall i :: !Chosen(h, i);
    } else {
      HitOnceReleases(h);
      HitLeaves(h);
      hide Chosen, IsFalling, Target, HitOnce;
      HitAllMeans(HitOnce(h));
    }
  }

  /** The loop hits at most one letter per pressed key, turning each upwards, and leaves no pressed key
      with a falling letter. */
  lemma {:induction false} HitAllCorrect(h: Hitting)
    requires LettersOk(h.letters)
    ensures var r := HitAll(h);
            && HitCount(h) == PressedCount(h.keys) - PressedCount(r.keys) <= 26
            && LettersOk(r.letters) && |r.letters| == |h.letters|
            && (forall i :: 0 <= i < |h.letters| ==>
                  r.letters[i] == h.letters[i] || (Falling(h.letters[i]) && r.letters[i] == h.letters[i].(v := UPWARDS)))
            && (forall i :: 0 <= i < |r.letters| ==> !(Falling(r.letters[i]) && r.keys[r.letters[i].text]))
            && (forall t :: 0 <= t < 26 && r.keys[t] ==> h.keys[t])
    decreases PressedCount(h.keys)
  {
    if Target(h.letters, h.keys) != -1 {
      HitOnceReleases(h);
      HitAllCorrect(HitOnce(h));
    }
  }

  lemma OneMoreChanged(s: seq<Letter>, t: seq<Letter>, r: seq<Letter>, k: int)
    requires 0 <= k < |s| && |s| == |t| == |r| && t == s[k := t[k]] && t[k] == r[k] != s[k]
    ensures k !in Changed(t, r) && Changed(s, r) == Changed(t, r) + {k}
  {
  }

  /** As many letters change as the loop hits. */
  lemma {:induction false} HitCountIsChanged(h: Hitting)
    requires LettersOk(h.letters)
    ensures |HitAll(h).letters| == |h.letters| && HitCount(h) == |Changed(h.letters, HitAll(h).letters)|
    decreases PressedCount(h.keys)
  {
    HitOnceMeans(h);
    HitAllMeans(h);
    if Target(h.letters, h.keys) == -1 {
      assert Changed(h.letters, h.letters) == {};
    } else {
      HitOnceReleases(h);
      HitLeaves(h);
      hide Chosen, IsFalling, LowestPressed, Target, HitOnce, Changed;
      var k, h1 := Target(h.letters, h.keys), HitOnce(h);
      HitCountIsChanged(h1);
      HitAllMeans(h1);
      assert HitAll(h) == HitAll(h1);
      OneMoreChanged(h.letters, h1.letters, HitAll(h1).letters, k);
    }
  }

  /** What the whole key loop achieves. */
  lemma HitAllDone(h: Hitting)
    requires LettersOk(h.letters)
    ensures AllHit(h, HitAll(h), HitCount(h))
  {
    HitAllMeans(h);
    HitCountIsChanged(h);
    hide Chosen, IsFalling, Changed, HitAll, HitCount;
  }
}

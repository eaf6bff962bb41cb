/** The terminal flashcard program (hanzi_display.py): load the deck, shuffle
    it, then show one card after another, cycling through the deck, with a
    ten-second countdown between cards. Console output is modelled as the
    values it shows; `random.shuffle`'s draws and the number of cards shown
    before Ctrl+C are parameters. */
module HanziDisplay {
  import opened Results
  import opened Flashcards

  /** Descriptions longer than this are cut. */
  const DescriptionLimit: nat := 200
  /** Seconds each card stays on screen. */
  const CardSeconds: int := 10

  /** `load_flashcards`: the parsed list, or None for a missing file, a JSON
      error or any other exception. */
  function LoadFlashcards(f: DeckFile): (cards: Option<seq<Card>>)
    ensures cards.None? <==> !f.Parsed?
    ensures cards.Some? ==> cards.value == f.cards
  {
    match f
    case Parsed(cards) => Some(cards)
    case _ => None
  }

  /** The description as shown: cut to its first 200 characters followed by
      "..." when longer, unchanged otherwise. The result alone does not tell
      which happened: a 203-character description ending in "..." is shown
      as it is. */
  function Truncate(desc: string): (shown: string)
    ensures |shown| <= DescriptionLimit + 3
    ensures |desc| <= DescriptionLimit ==> shown == desc
    ensures |desc| > DescriptionLimit ==> |shown| == DescriptionLimit + 3 && shown[..DescriptionLimit] == desc[..DescriptionLimit]
    ensures |desc| > DescriptionLimit ==> shown[DescriptionLimit..] == "..."
  {
    if |desc| > DescriptionLimit then desc[..DescriptionLimit] + "..." else desc
  }

  /** What `display_flashcard` puts on screen: the "FLASHCARD n/total"
      heading, the character, its pinyin, and the meaning and description
      sections when the card has them. */
  datatype CardView = CardView(
    number: nat,
    total: nat,
    hanzi: string,
    pinyin: string,
    meaning: Option<string>,
    description: Option<string>)

  /** `display_flashcard(card, number, total)`. "Hanzi" and "Pinyin" are read
      with `[]`, so a card missing either raises KeyError; "Meaning" and
      "Description" are shown only when present and non-empty, the latter
      truncated. */
  function ShowCard(card: Card, number: nat, total: nat): (r: Result<CardView, string>)
    ensures r.Failure? <==> "Hanzi" !in card || "Pinyin" !in card
    ensures r.Success? ==> r.value.number == number && r.value.total == total
    ensures r.Success? ==> r.value.hanzi == card["Hanzi"] && r.value.pinyin == card["Pinyin"]
    ensures r.Success? ==> (r.value.meaning.Some? <==> Truthy(card, "Meaning"))
    ensures r.Success? && r.value.meaning.Some? ==> r.value.meaning.value == card["Meaning"]
    ensures r.Success? ==> (r.value.description.Some? <==> Truthy(card, "Description"))
    ensures r.Success? && r.value.description.Some? ==>
              r.value.description.value == Truncate(card["Description"])
  {
    if "Hanzi" !in card then Failure("Hanzi")
    else if "Pinyin" !in card then Failure("Pinyin")
    else
      var meaning := if Truthy(card, "Meaning") then Some(card["Meaning"]) else None;
      var description := if Truthy(card, "Description") then Some(Truncate(card["Description"])) else None;
      Success(CardView(number, total, card["Hanzi"], card["Pinyin"], meaning, description))
  }

  /** `countdown_timer(seconds)`: the numbers it shows, `seconds` down to 1
      and then a final 0 (just 0 when `seconds` is not positive). */
  method CountdownTimer(seconds: int) returns (shown: seq<int>)
    ensures |shown| == (if seconds > 0 then seconds else 0) + 1
    ensures forall k :: 0 <= k < |shown| - 1 ==> shown[k] == seconds - k
    ensures shown[|shown| - 1] == 0
  {
    shown := [];
    var i := seconds;
    while i > 0
      invariant i <= seconds ==> |shown| == seconds - i
      invariant i >= 0 || i == seconds
      invariant forall k :: 0 <= k < |shown| ==> shown[k] == seconds - k
      decreases i
    {
      shown := shown + [i];
      i := i - 1;
    }
    shown := shown + [0];
  }

  /** The draws of CPython's `random.shuffle` on a list of `n` items: for
      `i` from `n - 1` down to 1, one index in `[0, i]`. */
  predicate ValidDraws(draws: seq<nat>, n: nat)
  {
    && |draws| == (if n > 0 then n - 1 else 0)
    && forall k :: 0 <= k < |draws| ==> draws[k] <= n - 1 - k
  }

  /** `random.shuffle` on a copy of the deck: each draw swaps one position
      with an earlier or equal one, so the result holds the same cards, each
      as many times as before. */
  method Shuffle(deck: seq<Card>, draws: seq<nat>) returns (shuffled: seq<Card>)
    requires ValidDraws(draws, |deck|)
    ensures |shuffled| == |deck|
    ensures multiset(shuffled) == multiset(deck)
  {
    shuffled := deck;
    var k := 0;
    while k < |draws|
      invariant 0 <= k <= |draws|
      invariant |shuffled| == |deck|
      invariant multiset(shuffled) == multiset(deck)
    {
      var i := |deck| - 1 - k;
      var j := draws[k];
      shuffled := shuffled[i := shuffled[j]][j := shuffled[i]];
      k := k + 1;
    }
  }

  /** How a run of the program ends: it exits at once without cards, or it
      shows cards from the shuffled deck until it is interrupted or a card
      raises. */
  datatype Session =
    | Exited
    | Ran(deck: seq<Card>, shown: seq<CardView>, crash: Option<string>)

  /** `main()`, interrupted after `steps` cards. The program exits without
      showing anything when loading fails or the deck is empty. Otherwise
      the k-th card shown is card `k mod n` of the shuffled deck, numbered
      `k mod n + 1` of `n`; a card missing a required key stops the run there. */
  method RunProgram(f: DeckFile, draws: seq<nat>, steps: nat) returns (s: Session)
    requires f.Parsed? ==> ValidDraws(draws, |f.cards|)
    ensures s.Exited? <==> LoadFlashcards(f).None? || LoadFlashcards(f).value == []
    ensures s.Ran? ==> |s.deck| == |f.cards| && multiset(s.deck) == multiset(f.cards)
    ensures s.Ran? ==> |s.shown| <= steps
    ensures s.Ran? ==> forall k :: 0 <= k < |s.shown| ==>
              ShowCard(s.deck[k % |s.deck|], k % |s.deck| + 1, |s.deck|) == Success(s.shown[k])
    ensures s.Ran? ==> forall k :: 0 <= k < |s.shown| ==>
              1 <= s.shown[k].number <= |s.deck| && s.shown[k].total == |s.deck|
    ensures s.Ran? && s.crash.None? ==> |s.shown| == steps
    ensures s.Ran? && s.crash.Some? ==> |s.shown| < steps
    ensures s.Ran? && s.crash.Some? ==>
              ShowCard(s.deck[|s.shown| % |s.deck|], |s.shown| % |s.deck| + 1, |s.deck|) == Failure(s.crash.value)
  {
    var loaded := LoadFlashcards(f);
    if loaded.None? || loaded.value == [] {
      return Exited;
    }
    var deck := Shuffle(loaded.value, draws);
    var n := |deck|;
    var cardIndex := 0;
    var shown: seq<CardView> := [];
    while |shown| < steps
      invariant |shown| <= steps
      invariant cardIndex == |shown| % n
      invariant forall k :: 0 <= k < |shown| ==> ShowCard(deck[k % n], k % n + 1, n) == Success(shown[k])
    {
      var view := ShowCard(deck[cardIndex], cardIndex + 1, n);
      if view.Failure? {
        return Ran(deck, shown, Some(view.error));
      }
      shown := shown + [view.value];
      var _ := CountdownTimer(CardSeconds);
      NextIndex(|shown| - 1, n);
      cardIndex := (cardIndex + 1) % n;
    }
    return Ran(deck, shown, None);
  }

  /** Advancing the index by one modulo `n` keeps it equal to the count of
      cards shown, modulo `n`. */
  lemma NextIndex(k: nat, n: nat)
    requires n > 0
    ensures (k % n + 1) % n == (k + 1) % n
  {
    var q := k / n;
    var r := k % n;
    assert k == q * n + r;
    if r + 1 < n {
      ShiftMod(r + 1, q, n);
      assert k + 1 == (r + 1) + q * n;
    } else {
      ShiftMod(0, q + 1, n);
      assert k + 1 == 0 + (q + 1) * n;
    }
  }

  /** The deck position shown `k` steps after position `start`. */
  function CyclePosition(start: nat, k: nat, n: nat): nat
    requires n > 0
  {
    (start + k) % n
  }

  /** How many steps after `start` the cycle reaches position `j`. */
  function StepsTo(start: nat, j: nat, n: nat): nat
    requires n > 0
  {
    (j - start) % n
  }

  /** Any `n` consecutive steps of the cycle visit every position of the deck
      exactly once: each position is reached within `n` steps, and no two of
      those steps reach the same one. */
  lemma CycleVisitsEachCardOnce(n: nat, start: nat)
    requires n > 0
    ensures forall j :: 0 <= j < n ==> StepsTo(start, j, n) < n && CyclePosition(start, StepsTo(start, j, n), n) == j
    ensures forall a, b :: 0 <= a < b < n ==> CyclePosition(start, a, n) != CyclePosition(start, b, n)
  {
    forall j | 0 <= j < n
      ensures CyclePosition(start, StepsTo(start, j, n), n) == j
    {
      CycleReaches(n, start, j);
    }
    forall a, b | 0 <= a < b < n
      ensures CyclePosition(start, a, n) != CyclePosition(start, b, n)
    {
      CycleSeparates(n, start, a, b);
    }
  }

  /** Position `j` is reached `StepsTo(start, j, n)` steps after `start`. */
  lemma CycleReaches(n: nat, start: nat, j: nat)
    requires n > 0 && j < n
    ensures CyclePosition(start, StepsTo(start, j, n), n) == j
  {
    var k := StepsTo(start, j, n);
    var q := (j - start) / n;
    assert j - start == q * n + k;
    assert start + k == j + (-q) * n;
    ShiftMod(j, -q, n);
  }

  /** Two different step counts below `n` reach different positions. */
  lemma CycleSeparates(n: nat, start: nat, a: nat, b: nat)
    requires n > 0 && a < b < n
    ensures CyclePosition(start, a, n) != CyclePosition(start, b, n)
  {
    var x := start + a;
    var y := start + b;
    assert x == (x / n) * n + x % n;
    assert y == (y / n) * n + y % n;
    if x % n == y % n {
      assert b - a == (y / n - x / n) * n;
      MultipleBounds(y / n - x / n, n);
    }
  }

  /** Adding a multiple of `n` to a position in `[0, n)` does not change it modulo `n`. */
  lemma ShiftMod(j: int, q: int, n: int)
    requires n > 0 && 0 <= j < n
    ensures (j + q * n) % n == j
  {
    var m := j + q * n;
    var r := m % n;
    var p := m / n;
    assert m == p * n + r;
    assert (p - q) * n == j - r;
    MultipleBounds(p - q, n);
  }

  /** A multiple of `n` that lies strictly between `-n` and `n` is zero. */
  lemma MultipleBounds(c: int, n: int)
    requires n > 0
    ensures -n < c * n < n ==> c == 0
  {
    if c >= 1 {
      assert c * n >= n;
    } else if c <= -1 {
      assert c * n <= -n;
    }
  }
}

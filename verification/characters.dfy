/** The character-display window's refresh machinery (`CharacterDisplay` in
    characters.py): a one-second timer counts down from ten and, on reaching
    zero, checks the message file and shows a random flashcard. Each timer
    callback is an explicit `Tick`; the message file and `random.randrange`'s
    draw are the tick's environment. */
module CharacterDisplay {
  import opened Text
  import opened Files
  import opened Flashcards

  /** Milliseconds between card changes. */
  const CharacterUpdateInterval: nat := 10000
  /** The value the seconds counter starts at and is reset to: the update
      interval in whole seconds (`ResetIsInterval`). */
  const ResetSeconds: int := 10
  const DefaultHeaderText: string := ""

  /** Everything a tick reads or writes: the loaded cards, `current_index`,
      `countdown_seconds`, and the texts of the header, character, frame and
      countdown labels. */
  datatype Display = Display(
    cards: seq<Card>,
    currentIndex: int,
    countdownSeconds: int,
    header: string,
    character: string,
    frame: string,
    countdownLabel: string)

  /** What the outside world supplies to a refresh: the message file, and the
      number `random.randrange(len(cards))` returns. */
  datatype Env = Env(message: FileRead, pick: nat)

  /** `randrange` only returns indices of the card list. */
  predicate ValidPick(cards: seq<Card>, e: Env)
  {
    |cards| > 0 ==> e.pick < |cards|
  }

  predicate ValidEnvs(cards: seq<Card>, envs: seq<Env>)
  {
    forall k :: 0 <= k < |envs| ==> ValidPick(cards, envs[k])
  }

  /** The observable actions of a refresh, in the order they happen. */
  datatype Effect = MessageChecked | CardDrawn(index: nat)

  /** A display together with the actions taken to reach it. */
  datatype Step = Step(display: Display, effects: seq<Effect>)

  /** The number of refreshes among some actions. */
  function Refreshes(effects: seq<Effect>): nat
    decreases |effects|
  {
    if |effects| == 0 then 0
    else (if effects[0] == MessageChecked then 1 else 0) + Refreshes(effects[1..])
  }

  lemma {:induction false} RefreshesAppend(a: seq<Effect>, b: seq<Effect>)
    ensures Refreshes(a + b) == Refreshes(a) + Refreshes(b)
    decreases |a|
  {
    if |a| > 0 {
      RefreshesAppend(a[1..], b);
      assert (a + b)[1..] == a[1..] + b;
    } else {
      assert a + b == b;
    }
  }

  /** The counter between ticks: never below one, never above its reset value. */
  predicate Counting(d: Display)
  {
    1 <= d.countdownSeconds <= ResetSeconds
  }

  /** `_load_flashcards`: the parsed list, or no cards at all when the file is
      missing or any other exception occurs. */
  function LoadFlashcards(f: DeckFile): (cards: seq<Card>)
    ensures f.Parsed? ==> cards == f.cards
    ensures !f.Parsed? ==> cards == []
  {
    match f
    case Parsed(cards) => cards
    case _ => []
  }

  /** `_check_for_message`: the header takes the file's first line, stripped,
      when that is not empty; a missing file, a read error or a blank first
      line leave it as it was. So a header that shows something never goes
      blank again. */
  function CheckForMessage(header: string, f: FileRead): (h: string)
    ensures h != header ==> f.Contents? && h == FirstLine(f.text) && h != ""
    ensures f.Contents? && FirstLine(f.text) != "" ==> h == FirstLine(f.text)
    ensures header != "" ==> h != ""
  {
    match f
    case Contents(text) =>
      var message := FirstLine(text);
      if message != "" then message else header
    case _ => header
  }

  /** `_display_random_character`: with no cards nothing happens; otherwise
      the drawn index becomes `current_index` and the character and frame
      labels show that card's "Hanzi" and "Pinyin" (empty when absent).
      Nothing else changes. */
  function DisplayRandomCharacter(d: Display, pick: nat): (r: Display)
    requires |d.cards| > 0 ==> pick < |d.cards|
    ensures |d.cards| == 0 ==> r == d
    ensures |d.cards| > 0 ==> 0 <= r.currentIndex < |d.cards| && r.currentIndex == pick
    ensures |d.cards| > 0 ==> r.character == FieldOr(d.cards[r.currentIndex], "Hanzi", "")
    ensures |d.cards| > 0 ==> r.frame == FieldOr(d.cards[r.currentIndex], "Pinyin", "")
    ensures r == d.(currentIndex := r.currentIndex, character := r.character, frame := r.frame)
  {
    if |d.cards| == 0 then d
    else
      var card := d.cards[pick];
      d.(currentIndex := pick, character := FieldOr(card, "Hanzi", ""), frame := FieldOr(card, "Pinyin", ""))
  }

  /** `_update_character`: the message check first, then the card draw. */
  function UpdateCharacter(d: Display, e: Env): (s: Step)
    requires ValidPick(d.cards, e)
    ensures s.effects == if |d.cards| > 0 then [MessageChecked, CardDrawn(e.pick)] else [MessageChecked]
    ensures Refreshes(s.effects) == 1
    ensures s.display.header == CheckForMessage(d.header, e.message)
    ensures s.display.countdownSeconds == d.countdownSeconds && s.display.cards == d.cards
    ensures s.display.countdownLabel == d.countdownLabel
    ensures |d.cards| > 0 ==>
              && s.display.currentIndex == e.pick
              && s.display.character == FieldOr(d.cards[e.pick], "Hanzi", "")
              && s.display.frame == FieldOr(d.cards[e.pick], "Pinyin", "")
    ensures |d.cards| == 0 ==> s.display == d.(header := CheckForMessage(d.header, e.message))
    ensures s.display == d.(header := s.display.header, currentIndex := s.display.currentIndex,
                            character := s.display.character, frame := s.display.frame)
  {
    var checked := d.(header := CheckForMessage(d.header, e.message));
    var drawn := DisplayRandomCharacter(checked, e.pick);
    if |d.cards| > 0 then
      var effects := [MessageChecked, CardDrawn(e.pick)];
      assert Refreshes(effects[1..][1..]) == 0;
      Step(drawn, effects)
    else
      var effects := [MessageChecked];
      assert Refreshes(effects[1..]) == 0;
      Step(drawn, effects)
  }

  /** `_update_countdown`, one timer callback. The counter drops by one and
      the label shows the dropped value; if that is not positive, exactly one
      refresh runs, leaving the display as `_update_character` leaves it
      apart from the counter, which goes back to ten. Otherwise only the
      counter and its label change. */
  function Tick(d: Display, e: Env): (s: Step)
    requires ValidPick(d.cards, e)
    ensures s.display.cards == d.cards
    ensures s.display.countdownLabel == IntToString(d.countdownSeconds - 1) + "s"
    ensures d.countdownSeconds - 1 <= 0 ==> s.display.countdownSeconds == ResetSeconds && Refreshes(s.effects) == 1
    ensures d.countdownSeconds - 1 > 0 ==>
              s == Step(d.(countdownSeconds := d.countdownSeconds - 1, countdownLabel := s.display.countdownLabel), [])
    ensures s.display.header != d.header ==>
              e.message.Contents? && s.display.header == FirstLine(e.message.text) && s.display.header != ""
    ensures Counting(d) ==> Counting(s.display)
    ensures Counting(d) && Refreshes(s.effects) == 1 ==> s.display.countdownLabel == "0s"
  {
    var seconds := d.countdownSeconds - 1;
    var counted := d.(countdownSeconds := seconds, countdownLabel := IntToString(seconds) + "s");
    if seconds <= 0 then
      var refreshed := UpdateCharacter(counted, e);
      Step(refreshed.display.(countdownSeconds := ResetSeconds), refreshed.effects)
    else
      Step(counted, [])
  }

  /** The tick that reaches zero runs `_update_character` on the display and
      then resets the counter: its actions are the refresh's, and the display
      is what the refresh leaves, with the counter at ten and the label
      showing the dropped value. So on every refresh with cards the drawn
      card's "Hanzi" and "Pinyin" are shown. */
  lemma RefreshTick(d: Display, e: Env)
    requires ValidPick(d.cards, e)
    requires d.countdownSeconds - 1 <= 0
    ensures Tick(d, e).effects == UpdateCharacter(d, e).effects
    ensures Tick(d, e).display == UpdateCharacter(d, e).display.(countdownSeconds := ResetSeconds,
                                                                countdownLabel := IntToString(d.countdownSeconds - 1) + "s")
    ensures |d.cards| > 0 ==>
              && Tick(d, e).display.currentIndex == e.pick
              && Tick(d, e).display.character == FieldOr(d.cards[e.pick], "Hanzi", "")
              && Tick(d, e).display.frame == FieldOr(d.cards[e.pick], "Pinyin", "")
  {
  }

  /** A run of ticks, one environment per tick. */
  function Run(d: Display, envs: seq<Env>): (s: Step)
    requires ValidEnvs(d.cards, envs)
    ensures s.display.cards == d.cards
    ensures Counting(d) ==> Counting(s.display)
    decreases |envs|
  {
    if |envs| == 0 then Step(d, [])
    else
      var first := Tick(d, envs[0]);
      var rest := Run(first.display, envs[1..]);
      Step(rest.display, first.effects + rest.effects)
  }

  lemma ResetIsInterval()
    ensures ResetSeconds == CharacterUpdateInterval / 1000
  {
  }

  /** From a counter at `c`, `k` ticks behave like `m = k + 10 - c` ticks from
      a fresh ten: `m` splits into one full period of ten per refresh fired,
      plus the part of a period the counter has run down (ten minus its
      reading). By `PeriodSplit` that makes the reading ten minus `m` modulo
      ten and the number of refreshes `m` divided by ten. */
  lemma RunCounts(d: Display, envs: seq<Env>)
    requires Counting(d) && ValidEnvs(d.cards, envs)
    ensures var c := Run(d, envs).display.countdownSeconds;
            && 1 <= c <= ResetSeconds
            && |envs| + ResetSeconds - d.countdownSeconds
               == Refreshes(Run(d, envs).effects) * ResetSeconds + (ResetSeconds - c)
  {
    RunFollowsCounter(d, envs);
    CounterClosedForm(d.countdownSeconds, |envs|);
    DivMod(|envs| + ResetSeconds - d.countdownSeconds);
  }

  /** Euclidean division by ten, which `%` and `/` compute. */
  lemma DivMod(m: int)
    ensures m == (m / ResetSeconds) * ResetSeconds + m % ResetSeconds
    ensures 0 <= m % ResetSeconds < ResetSeconds
  {
  }

  /** The split `RunCounts` states is the unique one: the counter reads ten
      minus `m` modulo ten, and `m` divided by ten refreshes have fired. */
  lemma PeriodSplit(m: int, q: int, c: int)
    requires 1 <= c <= ResetSeconds
    requires m == q * ResetSeconds + (ResetSeconds - c)
    ensures c == ResetSeconds - m % ResetSeconds
    ensures q == m / ResetSeconds
  {
  }

  /** The seconds counter on its own: its value after `k` ticks from `c`. */
  function CounterAfter(c: int, k: nat): int
    decreases k
  {
    if k == 0 then c else CounterAfter(if c - 1 <= 0 then ResetSeconds else c - 1, k - 1)
  }

  /** How many of `k` ticks from `c` bring the counter to zero. */
  function RefreshesAfter(c: int, k: nat): nat
    decreases k
  {
    if k == 0 then 0
    else (if c - 1 <= 0 then 1 else 0) + RefreshesAfter(if c - 1 <= 0 then ResetSeconds else c - 1, k - 1)
  }

  /** A run of ticks moves the counter, and fires refreshes, exactly as the
      counter on its own does. */
  lemma {:induction false} RunFollowsCounter(d: Display, envs: seq<Env>)
    requires Counting(d) && ValidEnvs(d.cards, envs)
    ensures Run(d, envs).display.countdownSeconds == CounterAfter(d.countdownSeconds, |envs|)
    ensures Refreshes(Run(d, envs).effects) == RefreshesAfter(d.countdownSeconds, |envs|)
    decreases |envs|
  {
    if |envs| > 0 {
      var first := Tick(d, envs[0]);
      var rest := Run(first.display, envs[1..]);
      assert ValidEnvs(first.display.cards, envs[1..]);
      TickCounts(d, envs[0]);
      RunFollowsCounter(first.display, envs[1..]);
      RefreshesAppend(first.effects, rest.effects);
    }
  }

  /** What one tick does to the counter and the refresh count. */
  lemma TickCounts(d: Display, e: Env)
    requires ValidPick(d.cards, e)
    ensures Tick(d, e).display.countdownSeconds == if d.countdownSeconds - 1 <= 0 then ResetSeconds else d.countdownSeconds - 1
    ensures Refreshes(Tick(d, e).effects) == if d.countdownSeconds - 1 <= 0 then 1 else 0
  {
    if d.countdownSeconds - 1 > 0 {
      assert Tick(d, e).effects == [];
    }
  }

  /** The closed form of the counter between ticks. */
  lemma {:induction false} CounterClosedForm(c: int, k: nat)
    requires 1 <= c <= ResetSeconds
    ensures var m := k + ResetSeconds - c;
            && CounterAfter(c, k) == ResetSeconds - m % ResetSeconds
            && RefreshesAfter(c, k) == m / ResetSeconds
    decreases k
  {
    if k == 0 {
      assert (ResetSeconds - c) % ResetSeconds == ResetSeconds - c;
    } else {
      var c' := if c - 1 <= 0 then ResetSeconds else c - 1;
      CounterClosedForm(c', k - 1);
      if c == 1 {
        AddPeriod(k - 1 + ResetSeconds - c');
      }
    }
  }

  /** One more period of ten ticks leaves the phase alone and adds one to
      the number of periods. */
  lemma AddPeriod(m: int)
    requires m >= 0
    ensures (m + ResetSeconds) % ResetSeconds == m % ResetSeconds
    ensures (m + ResetSeconds) / ResetSeconds == m / ResetSeconds + 1
  {
    var q := m / ResetSeconds;
    var r := m % ResetSeconds;
    assert m + ResetSeconds == (q + 1) * ResetSeconds + r;
  }

  /** Starting from ten, ten ticks fire exactly one refresh and bring the
      counter back to ten. */
  lemma TenTicksOneRefresh(d: Display, envs: seq<Env>)
    requires d.countdownSeconds == ResetSeconds && ValidEnvs(d.cards, envs)
    requires |envs| == 10
    ensures Refreshes(Run(d, envs).effects) == 1
    ensures Run(d, envs).display.countdownSeconds == ResetSeconds
  {
    RunCounts(d, envs);
  }

  /** `__init__`: the counter at ten with its label, the default header, an
      empty character label and "..." in the frame label, then one refresh:
      the header takes the message file's first line if it has one, and with
      cards the drawn card is shown. */
  function Start(cards: seq<Card>, e: Env): (s: Step)
    requires ValidPick(cards, e)
    ensures s.display.cards == cards
    ensures s.display.countdownSeconds == ResetSeconds && s.display.countdownLabel == "10s"
    ensures Counting(s.display)
    ensures Refreshes(s.effects) == 1
    ensures s.display.header == CheckForMessage(DefaultHeaderText, e.message)
    ensures |cards| == 0 ==> s.display.currentIndex == 0 && s.display.character == "" && s.display.frame == "..."
    ensures |cards| > 0 ==>
              && s.display.currentIndex == e.pick
              && s.display.character == FieldOr(cards[e.pick], "Hanzi", "")
              && s.display.frame == FieldOr(cards[e.pick], "Pinyin", "")
  {
    var built := Display(cards, 0, ResetSeconds, DefaultHeaderText, "", "...", IntToString(ResetSeconds) + "s");
    UpdateCharacter(built, e)
  }
}

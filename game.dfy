/**
 * The falling-word game: the state of the game page and one method per event
 * that changes it. Timers, the speech-recognition stream and the network are
 * outside the model; each of their deliveries is one atomic call below, and
 * any interleaving of calls is a possible run.
 */
module Game {
  import opened Common
  import opened Transcript
  import opened Registry
  import opened MatchEngine

  const MaxLives: int := 5
  const CountdownStart: int := 3
  /** A letter's `left` is drawn from `[0, innerWidth - SpawnMargin)`. */
  const SpawnMargin: int := 100
  const FirstStage: int := 1
  /** The hint shown under the play-field before anything was recognised. */
  const IdleHint: string := "버튼을 눌러 녹음하고 다시 눌러 제출하세요"

  /** The record posted when a round ends. */
  datatype GameResult = GameResult(level: int, playtime: int, correctNumber: int)

  /** One entry of a recognition event's `results`: the transcript of its
      first alternative and whether the recogniser has finalised it. */
  datatype SpeechResult = SpeechResult(transcript: string, isFinal: bool)

  /** What a match check did: nothing pending, no letter matched, the letter
      with this id was hit, or `toLowerCase` threw on an undefined letter (an
      exception that nothing in the page catches). */
  datatype MatchOutcome = NothingPending | NoMatch | Matched(id: int) | TypeError

  /** `Math.floor(r * n)` for `r = Math.random()`, which lies in `[0, 1)`. */
  function FloorRandom(r: real, n: int): (k: int)
    requires 0.0 <= r < 1.0
    ensures 0 < n ==> 0 <= k < n
    ensures n <= 0 ==> n <= k <= 0
  {
    var x := r * (n as real);
    assert (0 < n ==> 0.0 <= x < n as real) && (n <= 0 ==> n as real <= x <= 0.0) by {
      if 0 < n {
        ProductBounds(r, n as real);
      } else {
        ProductBounds(r, 0.0 - n as real);
        assert x == 0.0 - r * (0.0 - n as real);
      }
    }
    x.Floor
  }

  /** For `r` in `[0, 1)` and `m >= 0`, `r * m` lies in `[0, m]`, strictly
      below `m` when `m` is positive. */
  lemma ProductBounds(r: real, m: real)
    requires 0.0 <= r < 1.0 && 0.0 <= m
    ensures 0.0 <= r * m <= m
    ensures 0.0 < m ==> r * m < m
  {
    assert m - r * m == (1.0 - r) * m;
  }

  /** `words[Math.floor(Math.random() * words.length)]`: a word of the list,
      or `undefined` when the list is empty. */
  function SpawnText(words: seq<string>, r: real): (text: Option<string>)
    requires 0.0 <= r < 1.0
    ensures words != [] ==> text.Some? && text.value in words
    ensures words == [] ==> text == None
  {
    var k := FloorRandom(r, |words|);
    if 0 <= k < |words| then Some(words[k]) else None
  }

  /** `startTime ? Math.floor((Date.now() - startTime) / 1000) : 0`: whole
      seconds since the round started, 0 when no start time is recorded (a
      start time of 0 is falsy as well). */
  function Playtime(startTime: Option<int>, now: int): (seconds: int)
    ensures startTime == None || startTime == Some(0) ==> seconds == 0
    ensures startTime.Some? && startTime.value != 0 ==>
              seconds * 1000 <= now - startTime.value < seconds * 1000 + 1000
    ensures startTime.Some? && startTime.value <= now ==> 0 <= seconds
  {
    match startTime
    case None => 0
    case Some(t) => if t == 0 then 0 else (now - t) / 1000
  }

  /** The pending transcript after `onresult` has walked `results[lo..hi]`:
      each final result overwrites it with its normalised transcript, interim
      results leave it alone, so the last final result wins. */
  function LastFinal(results: seq<SpeechResult>, lo: nat, hi: nat, pending: string): (r: string)
    requires lo <= hi <= |results|
    ensures r == pending || (NoWhitespace(r) && NoUpper(r))
    ensures (exists i :: lo <= i < hi && results[i].isFinal) ==> NoWhitespace(r) && NoUpper(r)
    decreases hi
  {
    if hi == lo then pending
    else if results[hi - 1].isFinal then Normalize(results[hi - 1].transcript)
    else LastFinal(results, lo, hi - 1, pending)
  }

  /** Interim results never change the pending transcript. */
  lemma {:induction false} InterimResultsKeepPending(results: seq<SpeechResult>, lo: nat, hi: nat, pending: string)
    requires lo <= hi <= |results|
    requires forall i :: lo <= i < hi ==> !results[i].isFinal
    ensures LastFinal(results, lo, hi, pending) == pending
    decreases hi
  {
    if lo < hi {
      InterimResultsKeepPending(results, lo, hi - 1, pending);
    }
  }

  /** The pending transcript is the normalised text of the last final result. */
  lemma {:induction false} LastFinalResultWins(results: seq<SpeechResult>, lo: nat, hi: nat, pending: string, k: nat)
    requires lo <= k < hi <= |results| && results[k].isFinal
    requires forall i :: k < i < hi ==> !results[i].isFinal
    ensures LastFinal(results, lo, hi, pending) == Normalize(results[k].transcript)
    decreases hi
  {
    if k < hi - 1 {
      LastFinalResultWins(results, lo, hi - 1, pending, k);
    }
  }

  /** The state of the game page. */
  class GameSession {
    var letters: seq<Letter>
    var score: int
    var lives: int
    var isGameOver: bool
    var recognizedText: string
    var beforeText: string
    var isGameRunning: bool
    var startTime: Option<int>
    var stage: int
    var words: seq<string>
    var countdown: Option<int>

    /** Score never negative; lives within `[0, MaxLives]` and at 0 only once
        the round is over; never running and over at once; no letters outside
        a running round; the countdown within `[0, CountdownStart]`; letters
        in spawn order. */
    ghost predicate Valid()
      reads this
    {
      && 0 <= score
      && 0 <= lives <= MaxLives
      && (lives == 0 ==> isGameOver)
      && !(isGameRunning && isGameOver)
      && (!isGameRunning ==> letters == [])
      && (countdown.Some? ==> 0 <= countdown.value <= CountdownStart)
      && IdsIncreasing(letters)
    }

    /** The state `startGame` leaves behind. */
    ghost predicate RoundStarted(now: int)
      reads this
    {
      score == 0 && lives == MaxLives && letters == [] && !isGameOver && isGameRunning
      && startTime == Some(now)
    }

    twostate predicate RoundKept()
      reads this
    {
      && letters == old(letters) && score == old(score) && lives == old(lives)
      && isGameOver == old(isGameOver) && isGameRunning == old(isGameRunning)
      && startTime == old(startTime)
    }

    /** The initial values of the page's state hooks. */
    constructor ()
      ensures Valid()
      ensures letters == [] && score == 0 && lives == MaxLives
      ensures !isGameOver && !isGameRunning && startTime == None
      ensures recognizedText == "" && beforeText == IdleHint
      ensures stage == FirstStage && words == [] && countdown == None
    {
      letters := [];
      score := 0;
      lives := MaxLives;
      isGameOver := false;
      recognizedText := "";
      beforeText := IdleHint;
      isGameRunning := false;
      startTime := None;
      stage := FirstStage;
      words := [];
      countdown := None;
    }

    /** `handleStageSelection`, synchronous part: remember the stage. */
    method HandleStageSelection(selectedStage: int)
      requires Valid()
      modifies this`stage
      ensures Valid()
      ensures stage == selectedStage
    {
      stage := selectedStage;
    }

    /** `handleStageSelection`, when the stage's word list arrives: store it
        and start the countdown. A failed fetch never calls this. */
    method OnStageWords(fetched: seq<string>)
      requires Valid()
      modifies this`words, this`countdown
      ensures Valid()
      ensures words == fetched && countdown == Some(CountdownStart)
    {
      words := fetched;
      countdown := Some(CountdownStart);
    }

    /** `startGame`: a fresh round. */
    method StartGame(now: int)
      requires Valid()
      modifies this`score, this`lives, this`letters, this`isGameOver, this`isGameRunning, this`startTime
      ensures Valid()
      ensures RoundStarted(now)
    {
      score := 0;
      lives := MaxLives;
      letters := [];
      isGameOver := false;
      isGameRunning := true;
      startTime := Some(now);
    }

    /** The countdown effect, run once per countdown value: a positive value
        steps down by one, 0 clears the countdown and starts the round. */
    method CountdownTick(now: int)
      requires Valid()
      modifies this`countdown, this`score, this`lives, this`letters, this`isGameOver,
               this`isGameRunning, this`startTime
      ensures Valid()
      ensures old(countdown) == None ==> countdown == None && RoundKept()
      ensures old(countdown).Some? && old(countdown).value > 0 ==>
                countdown == Some(old(countdown).value - 1) && RoundKept()
      ensures old(countdown) == Some(0) ==> countdown == None && RoundStarted(now)
    {
      if countdown.Some? {
        var n := countdown.value;
        if n > 0 {
          countdown := Some(n - 1);
        } else if n == 0 {
          countdown := None;
          StartGame(now);
        }
      }
    }

    /** `endGame`: the round is over and the registry emptied; the result
        record it posts is returned. */
    method EndGame(now: int) returns (result: GameResult)
      requires Valid()
      modifies this`isGameOver, this`isGameRunning, this`letters
      ensures Valid()
      ensures isGameOver && !isGameRunning && letters == []
      ensures result == GameResult(stage, Playtime(startTime, now), score)
    {
      isGameOver := true;
      isGameRunning := false;
      letters := [];
      var playtime := Playtime(startTime, now);
      result := GameResult(stage, playtime, score);
    }

    /** `addLetter`, as the spawn interval calls it. The interval exists only
        while the round runs; `now` is `Date.now()`, later than every id on
        screen, and `pick` and `offset` are the two `Math.random()` draws. */
    method AddLetter(now: int, pick: real, offset: real, innerWidth: int)
      requires Valid() && isGameRunning
      requires 0.0 <= pick < 1.0 && 0.0 <= offset < 1.0
      requires forall i :: 0 <= i < |letters| ==> letters[i].id < now
      modifies this`letters
      ensures Valid()
      ensures letters == old(letters) + [Letter(now, SpawnText(words, pick), FloorRandom(offset, innerWidth - SpawnMargin))]
    {
      var newLetter := Letter(now, SpawnText(words, pick), FloorRandom(offset, innerWidth - SpawnMargin));
      AppendKeepsOrder(letters, newLetter);
      letters := letters + [newLetter];
    }

    /** `removeLetter(id, isMissed)`: the letter leaves the registry; on a miss
        with lives left one life is lost, and losing the last ends the round,
        whose result record is then returned. */
    method RemoveLetter(id: int, isMissed: bool, now: int) returns (result: Option<GameResult>)
      requires Valid()
      modifies this`letters, this`lives, this`isGameOver, this`isGameRunning
      ensures Valid()
      ensures lives == if isMissed && old(lives) > 0 then old(lives) - 1 else old(lives)
      ensures result.Some? <==> isMissed && old(lives) == 1
      ensures result.Some? ==>
                && isGameOver && !isGameRunning && letters == []
                && result.value == GameResult(stage, Playtime(startTime, now), score)
      ensures result.None? ==>
                && letters == RemoveById(old(letters), id)
                && isGameOver == old(isGameOver) && isGameRunning == old(isGameRunning)
    {
      RemoveKeepsOrder(letters, id);
      letters := RemoveById(letters, id);
      result := None;
      if isMissed && lives > 0 {
        var newLives := lives - 1;
        if newLives <= 0 {
          var record := EndGame(now);
          result := Some(record);
        }
        lives := newLives;
      }
    }

    /** `recognition.onresult`: every result from `resultIndex` on is
        normalised, and each final one becomes the pending transcript (and
        the text shown to the player). */
    method OnResult(results: seq<SpeechResult>, resultIndex: nat)
      requires Valid()
      requires resultIndex <= |results|
      modifies this`recognizedText, this`beforeText
      ensures Valid()
      ensures recognizedText == LastFinal(results, resultIndex, |results|, old(recognizedText))
      ensures beforeText == LastFinal(results, resultIndex, |results|, old(beforeText))
    {
      var pending, before := recognizedText, beforeText;
      var i := resultIndex;
      while i < |results|
        invariant resultIndex <= i <= |results|
        invariant pending == LastFinal(results, resultIndex, i, old(recognizedText))
        invariant before == LastFinal(results, resultIndex, i, old(beforeText))
      {
        var transcript := ToLowerCase(Trim(results[i].transcript));
        transcript := StripWhitespace(transcript);
        assert transcript == Normalize(results[i].transcript);
        if results[i].isFinal {
          pending := transcript;
          before := transcript;
        }
        i := i + 1;
      }
      recognizedText, beforeText := pending, before;
    }

    /** `handleMatchCheck`: the pending transcript hits the oldest matching
        letter, which leaves the registry and scores one; matched or not, the
        pending transcript is cleared. */
    method HandleMatchCheck() returns (outcome: MatchOutcome)
      requires Valid()
      modifies this`letters, this`score, this`recognizedText
      ensures Valid()
      ensures old(recognizedText) == "" ==>
                outcome == NothingPending && letters == old(letters) && score == old(score)
                && recognizedText == old(recognizedText)
      ensures old(recognizedText) != "" && HasUndefined(old(letters)) ==>
                outcome == TypeError && letters == old(letters) && score == old(score)
                && recognizedText == old(recognizedText)
      ensures old(recognizedText) != "" && !HasUndefined(old(letters)) ==>
                && recognizedText == ""
                && var ms := Matching(old(letters), old(recognizedText));
                   if ms == [] then
                     outcome == NoMatch && letters == old(letters) && score == old(score)
                   else
                     && outcome == Matched(OldestOf(ms).id)
                     && letters == RemoveById(old(letters), OldestOf(ms).id)
                     && score == old(score) + 1
      ensures outcome == NoMatch ==>
                forall i :: 0 <= i < |old(letters)| ==> !Matches(old(letters)[i], old(recognizedText))
    {
      if recognizedText == "" {
        return NothingPending;
      }
      if HasUndefined(letters) {
        return TypeError;
      }
      var matchingLetters := Matching(letters, recognizedText);
      if |matchingLetters| > 0 {
        var oldestLetter := OldestOf(matchingLetters);
        score := score + 1;
        // removeLetter(oldestLetter.id) without isMissed: only the filter
        RemoveKeepsOrder(letters, oldestLetter.id);
        letters := RemoveById(letters, oldestLetter.id);
        recognizedText := "";
        outcome := Matched(oldestLetter.id);
      } else {
        MatchingEmptyIff(letters, recognizedText);
        recognizedText := "";
        outcome := NoMatch;
      }
    }
  }
}

/**
 * The narration text of a post and `generate_tts` (main.py): the length cap
 * and the bounded retry around the speech synthesizer. The synthesizer is
 * an oracle: `outcomes[k]` says whether attempt `k` succeeds, and an attempt
 * past the end of `outcomes` fails.
 */
module Narration {
  import opened Wrappers

  const MAX_TEXT_LENGTH: nat := 5000
  const TRUNCATION_SUFFIX: string := "... [Content truncated due to length]"
  const MAX_ATTEMPTS: nat := 3
  const AUDIO_DIR: string := "audio"

  /** `f"Title: {clean_title}. Story: {selftext}"` */
  function NarrationText(cleanTitle: string, body: string): (r: string)
    ensures |r| == |cleanTitle| + |body| + 16
    ensures r[..7] == "Title: " && r[7..7 + |cleanTitle|] == cleanTitle
    ensures r[7 + |cleanTitle|..|r| - |body|] == ". Story: "
    ensures r[|r| - |body|..] == body
  {
    "Title: " + cleanTitle + ". Story: " + body
  }

  /** The text handed to the synthesizer: a text longer than 5000
      characters keeps its first 5000 and gets the truncation suffix. */
  function CapLength(text: string): (r: string)
    ensures |text| <= MAX_TEXT_LENGTH ==> r == text
    ensures |text| > MAX_TEXT_LENGTH ==>
              && |r| == MAX_TEXT_LENGTH + |TRUNCATION_SUFFIX|
              && r[..MAX_TEXT_LENGTH] == text[..MAX_TEXT_LENGTH]
              && r[MAX_TEXT_LENGTH..] == TRUNCATION_SUFFIX
    ensures |r| <= MAX_TEXT_LENGTH + |TRUNCATION_SUFFIX|
  {
    if |text| > MAX_TEXT_LENGTH then text[..MAX_TEXT_LENGTH] + TRUNCATION_SUFFIX else text
  }

  /** `os.path.join(AUDIO_DIR, filename)` on POSIX: an absolute name
      replaces the directory. */
  function AudioPath(filename: string): (path: string)
    ensures |filename| <= |path| && path[|path| - |filename|..] == filename
    ensures filename != [] && filename[0] == '/' ==> path == filename
    ensures (filename == [] || filename[0] != '/') ==>
              && |path| == |AUDIO_DIR| + 1 + |filename|
              && path[..|AUDIO_DIR| + 1] == AUDIO_DIR + "/"
  {
    if filename != [] && filename[0] == '/' then filename else AUDIO_DIR + "/" + filename
  }

  predicate AttemptSucceeds(outcomes: seq<bool>, k: nat) {
    k < |outcomes| && outcomes[k]
  }

  /** One of the three attempts succeeds. */
  predicate Synthesizes(outcomes: seq<bool>) {
    exists k :: 0 <= k < MAX_ATTEMPTS && AttemptSucceeds(outcomes, k)
  }

  /** The number of attempts made when attempt `k` is the next one. */
  function AttemptsFrom(outcomes: seq<bool>, k: nat): (n: nat)
    requires k < MAX_ATTEMPTS
    ensures k < n <= MAX_ATTEMPTS
    ensures forall j :: k <= j < n - 1 ==> !AttemptSucceeds(outcomes, j)
    ensures n < MAX_ATTEMPTS ==> AttemptSucceeds(outcomes, n - 1)
    decreases MAX_ATTEMPTS - k
  {
    if AttemptSucceeds(outcomes, k) || k == MAX_ATTEMPTS - 1 then k + 1
    else AttemptsFrom(outcomes, k + 1)
  }

  /** The number of synthesizer calls `generate_tts` makes: up to and
      including the first success, never more than three. */
  function AttemptsMade(outcomes: seq<bool>): (n: nat)
    ensures 1 <= n <= MAX_ATTEMPTS
    ensures forall j :: 0 <= j < n - 1 ==> !AttemptSucceeds(outcomes, j)
    ensures Synthesizes(outcomes) <==> AttemptSucceeds(outcomes, n - 1)
  {
    AttemptsFrom(outcomes, 0)
  }

  /** `generate_tts(text, filename)`: returns the file name after the first
      successful attempt and `None` after three failures. `attempts` counts
      the synthesizer calls and `spoken` is the text they were given. */
  method GenerateTts(text: string, filename: string, outcomes: seq<bool>)
    returns (result: Option<string>, attempts: nat, spoken: string)
    ensures spoken == CapLength(text)
    ensures result == (if Synthesizes(outcomes) then Some(filename) else None)
    ensures attempts == AttemptsMade(outcomes)
    ensures result.None? ==> attempts == MAX_ATTEMPTS
  {
    spoken := text;
    if |spoken| > MAX_TEXT_LENGTH {
      spoken := spoken[..MAX_TEXT_LENGTH] + TRUNCATION_SUFFIX;
    }
    attempts := 0;
    for attempt := 0 to MAX_ATTEMPTS
      invariant attempts == attempt
      invariant forall j :: 0 <= j < attempt ==> !AttemptSucceeds(outcomes, j)
    {
      attempts := attempts + 1;
      if AttemptSucceeds(outcomes, attempt) {
        return Some(filename), attempts, spoken;
      }
      if attempt == MAX_ATTEMPTS - 1 {
        return None, attempts, spoken;
      }
    }
    result := None;
  }
}

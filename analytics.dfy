/**
 * The report-enrichment helpers of the analytics layer: the ordered keyword
 * classifier, the low-effort detector, text normalisation and the repeat ratio
 * against an author's recent reports.
 */
module Analytics {
  import opened Wrappers
  import opened JsText
  import opened Sorting

  /** The task-type labels `classifyTask` returns
      ('accounts', 'chat', 'transfers', 'skip', 'other'). */
  datatype TaskType = Accounts | Chat | Transfers | Skip | Other

  /** The alternatives of the four classification patterns, tried in this order. */
  function AccountKeywords(): seq<string> { ["аккаунт", "happn", "созда"] }
  function ChatKeywords(): seq<string> { ["чат", "писал", "ответ", "чатинг"] }
  function TransferKeywords(): seq<string> { ["перевел", "инста", "insta", "instagram"] }
  function SkipKeywords(): seq<string> { ["ничего", "нет"] }

  /** Template phrases of a low-effort report. */
  function TemplatePhrases(): seq<string> { ["делал аккаунты", "проверял", "писал людям"] }

  /** Reports whose trimmed text is shorter than this are flagged. */
  const MinEffortLength: nat := 15

  /** How many of an author's latest reports the repeat score compares against. */
  const RecentWindow: nat := 5

  // ---------------------------------------------------------------------------
  // classifyTask
  // ---------------------------------------------------------------------------

  /** `classifyTask`: a missing text counts as empty; the text is lower-cased and the
      first rule whose pattern matches decides the label. */
  function ClassifyTask(text: Option<string>): TaskType {
    var t := ToLowerCase(text.GetOr(""));
    if ContainsAny(t, AccountKeywords()) then Accounts
    else if ContainsAny(t, ChatKeywords()) then Chat
    else if ContainsAny(t, TransferKeywords()) then Transfers
    else if ContainsAny(t, SkipKeywords()) then Skip
    else Other
  }

  /** No keyword occurs in the empty string. */
  lemma NothingInEmpty(ps: seq<string>)
    requires forall k :: 0 <= k < |ps| ==> ps[k] != []
    ensures !ContainsAny([], ps)
  {
  }

  /** A missing or empty text is classified `other`. */
  lemma ClassifyTaskOfEmpty()
    ensures ClassifyTask(None) == Other
    ensures ClassifyTask(Some("")) == Other
  {
    NothingInEmpty(AccountKeywords());
    NothingInEmpty(ChatKeywords());
    NothingInEmpty(TransferKeywords());
    NothingInEmpty(SkipKeywords());
  }

  /** An account keyword, written in any letter case (the stretch of text at offset
      `i` reads the keyword once lower-cased), makes the report `accounts` whatever
      chat, transfer or skip words it also contains. */
  lemma AccountKeywordWins(text: string, k: nat, i: nat)
    requires k < |AccountKeywords()|
    requires i + |AccountKeywords()[k]| <= |text|
    requires ToLowerCase(text[i..i + |AccountKeywords()[k]|]) == AccountKeywords()[k]
    ensures ClassifyTask(Some(text)) == Accounts
  {
    ContainsIgnoringCase(text, AccountKeywords()[k], i);
  }

  /** Without an account keyword, a chat keyword in any letter case decides, before
      transfer or skip words. */
  lemma ChatKeywordBeatsLaterRules(text: string, k: nat, i: nat)
    requires k < |ChatKeywords()|
    requires i + |ChatKeywords()[k]| <= |text|
    requires ToLowerCase(text[i..i + |ChatKeywords()[k]|]) == ChatKeywords()[k]
    requires !ContainsAny(ToLowerCase(text), AccountKeywords())
    ensures ClassifyTask(Some(text)) == Chat
  {
    ContainsIgnoringCase(text, ChatKeywords()[k], i);
  }

  /** Without account or chat keywords, a transfer keyword in any letter case decides,
      before skip words. */
  lemma TransferKeywordBeatsSkip(text: string, k: nat, i: nat)
    requires k < |TransferKeywords()|
    requires i + |TransferKeywords()[k]| <= |text|
    requires ToLowerCase(text[i..i + |TransferKeywords()[k]|]) == TransferKeywords()[k]
    requires !ContainsAny(ToLowerCase(text), AccountKeywords())
    requires !ContainsAny(ToLowerCase(text), ChatKeywords())
    ensures ClassifyTask(Some(text)) == Transfers
  {
    ContainsIgnoringCase(text, TransferKeywords()[k], i);
  }

  /** Without account, chat or transfer keywords, a skip word in any letter case
      decides. */
  lemma SkipKeywordBeatsOther(text: string, k: nat, i: nat)
    requires k < |SkipKeywords()|
    requires i + |SkipKeywords()[k]| <= |text|
    requires ToLowerCase(text[i..i + |SkipKeywords()[k]|]) == SkipKeywords()[k]
    requires !ContainsAny(ToLowerCase(text), AccountKeywords())
    requires !ContainsAny(ToLowerCase(text), ChatKeywords())
    requires !ContainsAny(ToLowerCase(text), TransferKeywords())
    ensures ClassifyTask(Some(text)) == Skip
  {
    ContainsIgnoringCase(text, SkipKeywords()[k], i);
  }

  /** A text with no keyword of any of the four rules is `other`. */
  lemma NoKeywordIsOther(text: string)
    requires !ContainsAny(ToLowerCase(text), AccountKeywords())
    requires !ContainsAny(ToLowerCase(text), ChatKeywords())
    requires !ContainsAny(ToLowerCase(text), TransferKeywords())
    requires !ContainsAny(ToLowerCase(text), SkipKeywords())
    ensures ClassifyTask(Some(text)) == Other
  {
  }

  /** Letter case does not matter: a text and its lower-cased form get the same label. */
  lemma ClassifyTaskIgnoresCase(text: string)
    ensures ClassifyTask(Some(ToLowerCase(text))) == ClassifyTask(Some(text))
  {
    ToLowerCaseIdempotent(text);
  }

  // ---------------------------------------------------------------------------
  // isSuspicious
  // ---------------------------------------------------------------------------

  /** `isSuspicious`: a missing or empty text, a trimmed text shorter than 15
      characters, or a text with a template phrase (in any letter case). */
  function IsSuspicious(text: Option<string>): bool {
    match text
    case None => true
    case Some(t) =>
      t == [] || |Trim(t)| < MinEffortLength || ContainsAny(ToLowerCase(t), TemplatePhrases())
  }

  /** A missing text is flagged. */
  lemma IsSuspiciousOfMissing()
    ensures IsSuspicious(None)
  {
  }

  /** Any text shorter than 15 characters is flagged, whatever it says. */
  lemma ShortTextIsSuspicious(t: string)
    requires |t| < MinEffortLength
    ensures IsSuspicious(Some(t))
  {
  }

  /** A text whose characters outside `t[a..b]` are all whitespace, with fewer than
      15 characters in that stretch, is flagged however long it is with its padding:
      the length is checked after trimming. */
  lemma PaddedShortTextIsSuspicious(t: string, a: nat, b: nat)
    requires a <= b <= |t| && b - a < MinEffortLength
    requires forall k :: 0 <= k < a ==> IsSpace(t[k])
    requires forall k :: b <= k < |t| ==> IsSpace(t[k])
    ensures IsSuspicious(Some(t))
  {
    TrimRemovesOnlySpace(t);
    var n := LeadingSpaces(t);
    var r := Trim(t);
    assert n >= a;
    if r != [] {
      assert t[n + |r| - 1] == r[|r| - 1];
      assert !IsSpace(t[n + |r| - 1]);
      assert n + |r| <= b;
    }
    assert |r| < MinEffortLength;
  }

  /** A text of at least 15 characters after trimming and without template phrases is
      never flagged; in particular length alone never flags it. */
  lemma LongPlainTextIsNotSuspicious(t: string)
    requires |Trim(t)| >= MinEffortLength
    requires !ContainsAny(ToLowerCase(t), TemplatePhrases())
    ensures !IsSuspicious(Some(t))
  {
  }

  /** A template phrase flags a report however long it is and in whatever case it is written. */
  lemma TemplatePhraseIsSuspicious(t: string, k: nat, i: nat)
    requires k < |TemplatePhrases()|
    requires i + |TemplatePhrases()[k]| <= |t|
    requires ToLowerCase(t[i..i + |TemplatePhrases()[k]|]) == TemplatePhrases()[k]
    ensures IsSuspicious(Some(t))
  {
    ContainsIgnoringCase(t, TemplatePhrases()[k], i);
  }

  // ---------------------------------------------------------------------------
  // normalizeText
  // ---------------------------------------------------------------------------

  /** `normalizeText`: lower-case, collapse every whitespace run to one space, trim.
      The result has no whitespace at either end, never two whitespace characters in a
      row, only plain spaces as whitespace, and no upper-case letter. */
  function NormalizeText(txt: Option<string>): (r: string)
    ensures NoEdgeSpace(r)
    ensures Collapsed(r)
    ensures AllLower(r)
  {
    var lowered := ToLowerCase(txt.GetOr(""));
    var collapsed := CollapseSpaces(lowered);
    ToLowerCaseIdempotent(txt.GetOr(""));
    CollapseSpacesCollapsed(lowered);
    CollapseSpacesLower(lowered);
    TrimKeepsCollapsedLower(collapsed);
    Trim(collapsed)
  }

  /** Normalising a normalised text changes nothing. */
  lemma NormalizeTextIdempotent(txt: Option<string>)
    ensures NormalizeText(Some(NormalizeText(txt))) == NormalizeText(txt)
  {
    var r := NormalizeText(txt);
    LowerFixpoint(r);
    CollapsedFixpoint(r);
    TrimFixpoint(r);
  }

  /** Normalising keeps every character that is not whitespace, lower-cased, in
      order, so two texts with the same normal form have the same characters apart
      from letter case and whitespace. */
  lemma NormalizeTextKeepsNonSpace(s: string)
    ensures NonSpace(NormalizeText(Some(s))) == NonSpace(ToLowerCase(s))
  {
    var lowered := ToLowerCase(s);
    CollapseSpacesKeepsNonSpace(lowered);
    NonSpaceTrim(CollapseSpaces(lowered));
  }

  // ---------------------------------------------------------------------------
  // calcRepeatScore (the arithmetic; the history query is in the ledger)
  // ---------------------------------------------------------------------------

  /** Whether one history text counts as a repeat of the normalised candidate `base`:
      an empty history text is skipped, any other is compared after normalising. */
  predicate IsRepeat(historyText: string, base: string) {
    historyText != [] && NormalizeText(Some(historyText)) == base
  }

  /** A history text that counts as a repeat of `text` has the same characters, apart
      from whitespace and letter case, in the same order. */
  lemma RepeatHasSameNonSpace(historyText: string, text: string)
    requires IsRepeat(historyText, NormalizeText(Some(text)))
    ensures NonSpace(ToLowerCase(historyText)) == NonSpace(ToLowerCase(text))
  {
    NormalizeTextKeepsNonSpace(historyText);
    NormalizeTextKeepsNonSpace(text);
  }

  /** The number of history texts that repeat `base`. */
  function CountMatches(recent: seq<string>, base: string): (n: nat)
    ensures n <= |recent|
  {
    if recent == [] then 0
    else CountMatches(recent[..|recent| - 1], base)
         + (if IsRepeat(recent[|recent| - 1], base) then 1 else 0)
  }

  /** Counting one more history text. */
  lemma CountMatchesStep(recent: seq<string>, i: nat, base: string)
    requires i < |recent|
    ensures CountMatches(recent[..i + 1], base)
      == CountMatches(recent[..i], base) + (if IsRepeat(recent[i], base) then 1 else 0)
  {
    PrefixStep(recent, i);
  }

  /** `calcRepeatScore` from the history it reads: 0 without history, otherwise the
      share of history texts that repeat the normalised candidate. The divisor is the
      whole history, empty texts included. */
  function RepeatRatio(recent: seq<string>, text: string): (score: real)
    ensures 0.0 <= score <= 1.0
    ensures recent == [] ==> score == 0.0
  {
    if |recent| == 0 then 0.0
    else
      var matches := CountMatches(recent, NormalizeText(Some(text)));
      Fraction(matches, |recent|);
      matches as real / |recent| as real
  }

  /** A share of a non-empty whole lies between 0 and 1 and, times the whole, is the part. */
  lemma Fraction(part: nat, whole: nat)
    requires 0 < whole && part <= whole
    ensures 0.0 <= part as real / whole as real <= 1.0
    ensures (part as real / whole as real) * whole as real == part as real
  {
  }

  /** The whole, as a share of itself, is 1. */
  lemma Whole(whole: nat)
    requires 0 < whole
    ensures whole as real / whole as real == 1.0
  {
  }

  /** The matches of two stretches of history add up. */
  lemma {:induction false} CountMatchesConcat(a: seq<string>, b: seq<string>, base: string)
    ensures CountMatches(a + b, base) == CountMatches(a, base) + CountMatches(b, base)
    decreases |b|
  {
    if b == [] {
      assert a + b == a;
    } else {
      var b' := b[..|b| - 1];
      CountMatchesConcat(a, b', base);
      assert (a + b)[..|a + b| - 1] == a + b';
      assert (a + b)[|a + b| - 1] == b[|b| - 1];
    }
  }

  /** An empty history entry, wherever it stands, never adds a match (`if (!r.text)
      continue`). */
  lemma EmptyEntryNeverMatches(a: seq<string>, b: seq<string>, base: string)
    ensures CountMatches(a + [""] + b, base) == CountMatches(a + b, base)
  {
    CountMatchesConcat(a + [""], b, base);
    CountMatchesConcat(a, [""], base);
    CountMatchesConcat(a, b, base);
    assert [""][..0] == [];
  }

  /** An empty history entry still counts in the divisor `recent.length`, so it lowers
      the score: the matches of the other entries are shared among one more. */
  lemma EmptyEntryLowersRatio(a: seq<string>, b: seq<string>, text: string)
    ensures RepeatRatio(a + [""] + b, text)
      == CountMatches(a + b, NormalizeText(Some(text))) as real / (|a + b| + 1) as real
  {
    var base := NormalizeText(Some(text));
    var h := a + [""] + b;
    EmptyEntryNeverMatches(a, b, base);
    assert |h| == |a + b| + 1;
    RatioOfNonEmpty(h, text);
  }

  /** The score of a non-empty history is its match count over its length. */
  lemma RatioOfNonEmpty(recent: seq<string>, text: string)
    requires recent != []
    ensures RepeatRatio(recent, text)
      == CountMatches(recent, NormalizeText(Some(text))) as real / |recent| as real
  {
  }

  /** When every history text is non-empty and normalises to the normalised candidate,
      the score is 1. */
  lemma {:induction false} AllRepeatsCountAll(recent: seq<string>, base: string)
    requires forall i :: 0 <= i < |recent| ==> IsRepeat(recent[i], base)
    ensures CountMatches(recent, base) == |recent|
    decreases |recent|
  {
    if recent != [] {
      AllRepeatsCountAll(recent[..|recent| - 1], base);
    }
  }

  lemma RepeatRatioAllRepeats(recent: seq<string>, text: string)
    requires recent != []
    requires forall i :: 0 <= i < |recent| ==> IsRepeat(recent[i], NormalizeText(Some(text)))
    ensures RepeatRatio(recent, text) == 1.0
  {
    var base := NormalizeText(Some(text));
    AllRepeatsCountAll(recent, base);
    Whole(|recent|);
  }

  /** When no history text repeats the candidate, the score is 0. */
  lemma {:induction false} NoRepeatsCountNone(recent: seq<string>, base: string)
    requires forall i :: 0 <= i < |recent| ==> !IsRepeat(recent[i], base)
    ensures CountMatches(recent, base) == 0
    decreases |recent|
  {
    if recent != [] {
      NoRepeatsCountNone(recent[..|recent| - 1], base);
    }
  }
}

/** The summary request text the browser side builds
    (poc-app/src/utils/prompt.ts): a fixed header naming the week, then one
    line per note in the order given, or a fixed notice when there are no notes. */
module Prompt {
  import opened Util
  import opened Types

  /** The seven instruction lines that open the header. */
  const Intro: seq<string> := [
    "이번 주(월~금) 데일리 메모를 주간회의용으로 요약해줘.",
    "- 날짜 순서를 고려해 흐름을 이해하고, 반복 태스크는 한 문장으로 통합",
    "- 사람/팀/프로젝트 이름은 원문 유지",
    "- 불확실한 내용은 “(확인 필요)”라고 표기",
    "- “없음”, “TL;DR” 같은 메타 표현은 쓰지 말 것",
    "- 주간회의는 날짜별로 서술하지 않고 카테고리 별로 완성 혹은 진행하고 있는 사항을 적어줄것",
    "이모지 사용 금지 # 사용 금지. - 대쉬만 사용"
  ]

  /** The last header line, directly followed by the notes. */
  const DailyTitle: string := "데일리 메모 (날짜순):"

  /** The notice sent in place of the notes when there are none. */
  const EmptyFallback: string := "메모가 비어 있습니다. 입력된 내용만으로 간결히 작성해주세요."

  /** The header line naming the week: `기간: <start> ~ <end>`. */
  function PeriodLine(weekStart: string, weekEnd: string): string
  {
    "기간: " + weekStart + " ~ " + weekEnd
  }

  function HeaderLines(range: WeekRange): seq<string>
  {
    Intro + [PeriodLine(range.weekStart, range.weekEnd), "", DailyTitle]
  }

  /** The header as sent: its lines joined by line feeds. */
  function HeaderText(range: WeekRange): string
  {
    Join(HeaderLines(range), "\n")
  }

  /** One note as a line: its date, a colon and a space, and its trimmed text. */
  function PromptLine(e: Entry): string
  {
    e.date + ": " + Trim(e.text)
  }

  /** One line per note, in the order of the notes. */
  function Lines(entries: seq<Entry>): (r: seq<string>)
    ensures |r| == |entries| && forall i :: 0 <= i < |r| ==> r[i] == PromptLine(entries[i])
  {
    seq(|entries|, i requires 0 <= i < |entries| => PromptLine(entries[i]))
  }

  function Body(entries: seq<Entry>): string
  {
    Join(Lines(entries), "\n")
  }

  /** `buildPrompt`: the header, then the body, or the notice when the body is empty. */
  function BuildPrompt(entries: seq<Entry>, range: WeekRange): string
  {
    var body := Body(entries);
    HeaderText(range) + (if body == "" then EmptyFallback else body)
  }

  // ---------------------------------------------------------------------------
  // Properties
  // ---------------------------------------------------------------------------

  /** The header spelled out: the instruction lines, the period line, an empty
      line and the title, with one line feed between neighbours. */
  lemma HeaderTextLayout(range: WeekRange)
    ensures HeaderText(range) ==
      Join(Intro, "\n") + "\n" + PeriodLine(range.weekStart, range.weekEnd) + "\n" + "\n" + DailyTitle
  {
    HeaderJoin(Intro, PeriodLine(range.weekStart, range.weekEnd), DailyTitle);
  }

  lemma HeaderJoin(intro: seq<string>, period: string, title: string)
    requires |intro| > 0
    ensures Join(intro + [period, "", title], "\n") == Join(intro, "\n") + "\n" + period + "\n" + "\n" + title
  {
    JoinSnoc3(intro, period, "", title, "\n");
  }

  /** The body is empty exactly when there are no notes; otherwise it starts
      with the first note's line. */
  lemma BodyEmpty(entries: seq<Entry>)
    ensures Body(entries) == "" <==> entries == []
    ensures entries != [] ==> PromptLine(entries[0]) <= Body(entries)
  {
    if entries != [] {
      JoinStartsWithFirst(Lines(entries), "\n");
    }
  }

  /** The notice stands in for the notes exactly when there are none: every
      note line has a colon, and the notice has none. */
  lemma FallbackExactlyWhenEmpty(entries: seq<Entry>, range: WeekRange)
    ensures BuildPrompt(entries, range) == HeaderText(range) + EmptyFallback <==> entries == []
  {
    BodyEmpty(entries);
    var body := Body(entries);
    if entries != [] && BuildPrompt(entries, range) == HeaderText(range) + EmptyFallback {
      PrefixCancel(HeaderText(range), body, EmptyFallback);
      var k := |entries[0].date|;
      assert body[k] == PromptLine(entries[0])[k] == ':';
      NoColonInFallback(k);
    }
  }

  lemma NoColonInFallback(k: int)
    requires 0 <= k < |EmptyFallback|
    ensures EmptyFallback[k] != ':'
  {
  }

  /** Notes contribute their lines in the order given: appending a note appends
      a line feed and its line. */
  lemma BodyAppend(entries: seq<Entry>, e: Entry)
    requires entries != []
    ensures Body(entries + [e]) == Body(entries) + "\n" + PromptLine(e)
  {
    assert Lines(entries + [e]) == Lines(entries) + [PromptLine(e)];
    JoinSnoc(Lines(entries), PromptLine(e), "\n");
  }

  /** The body never ends with a line feed: the last line ends with the last
      non-blank character of its text, or with the space after the colon. */
  lemma BodyNoTrailingNewline(entries: seq<Entry>)
    requires entries != []
    ensures Body(entries) != "" && Body(entries)[|Body(entries)| - 1] != '\n'
  {
    var lines := Lines(entries);
    var last := lines[|lines| - 1];
    JoinEndsWithLast(lines, "\n");
    TrimIsSlice(entries[|entries| - 1].text);
    assert last[|last| - 1] != '\n';
  }
}

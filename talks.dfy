/** The talks page of `src/app/talks/page.tsx`: the relative-time label of a talk and the
    compose box that prepends a new talk. Clock readings and the local calendar are
    parameters. */
module Talks {
  import opened Wrappers
  import opened Text

  const MinuteMs := 60000
  const HourMs := 3600000
  const DayMs := 86400000
  const WeekMs := 7 * DayMs

  /** Which label `formatDate` picks, with the number it shows. */
  datatype Label = JustNow | MinutesAgo(minutes: nat) | HoursAgo(hours: nat) | DaysAgo(days: nat) | OnDate

  /** The `if` chain of `formatDate` on `diff = now - date` in milliseconds. The three counts
      are `Math.floor` of the quotient, which for a positive divisor is Dafny's `/`. Each label
      is characterised by a range of `diff`, so the labels are exclusive and exhaustive, and
      the number shown lies in 1..59, 1..23 or 1..6. */
  function Classify(diff: int): (l: Label)
    ensures l == JustNow <==> diff < MinuteMs
    ensures l.MinutesAgo? <==> MinuteMs <= diff < HourMs
    ensures l.HoursAgo? <==> HourMs <= diff < DayMs
    ensures l.DaysAgo? <==> DayMs <= diff < WeekMs
    ensures l == OnDate <==> WeekMs <= diff
    ensures l.MinutesAgo? ==> 1 <= l.minutes <= 59 && l.minutes * MinuteMs <= diff < (l.minutes + 1) * MinuteMs
    ensures l.HoursAgo? ==> 1 <= l.hours <= 23 && l.hours * HourMs <= diff < (l.hours + 1) * HourMs
    ensures l.DaysAgo? ==> 1 <= l.days <= 6 && l.days * DayMs <= diff < (l.days + 1) * DayMs
  {
    var minutes := diff / MinuteMs;
    var hours := diff / HourMs;
    var days := diff / DayMs;
    if minutes < 1 then JustNow
    else if minutes < 60 then MinutesAgo(minutes)
    else if hours < 24 then HoursAgo(hours)
    else if days < 7 then DaysAgo(days)
    else OnDate
  }

  /** The text of a label; `month` and `day` are the talk's local `getMonth() + 1` and
      `getDate()`. */
  function Render(l: Label, month: nat, day: nat): string {
    match l
    case JustNow => "刚刚"
    case MinutesAgo(n) => NatToString(n) + "分钟前"
    case HoursAgo(n) => NatToString(n) + "小时前"
    case DaysAgo(n) => NatToString(n) + "天前"
    case OnDate => NatToString(month) + "月" + NatToString(day) + "日"
  }

  /** `formatDate` for a talk created at `createdMs`, read at `nowMs`. */
  function FormatDate(createdMs: int, nowMs: int, month: nat, day: nat): string {
    Render(Classify(nowMs - createdMs), month, day)
  }

  /** "刚刚" is shown exactly for differences under a minute, including future timestamps. */
  lemma JustNowExactly(createdMs: int, nowMs: int, month: nat, day: nat)
    ensures FormatDate(createdMs, nowMs, month, day) == "刚刚" <==> nowMs - createdMs < MinuteMs
  {
    var l := Classify(nowMs - createdMs);
    var s := Render(l, month, day);
    if l != JustNow {
      assert s[|s| - 1] != '刚';
    }
  }

  /** A relative label can be read back: its text determines the bucket and the number. */
  lemma RenderReadsBack(l1: Label, l2: Label, month: nat, day: nat)
    requires l1 != OnDate && l2 != OnDate
    requires Render(l1, month, day) == Render(l2, month, day)
    ensures l1 == l2
  {
    var s := Render(l1, month, day);
    assert l1 == JustNow <==> s[|s| - 1] == '刚';
    assert l2 == JustNow <==> s[|s| - 1] == '刚';
    if l1 != JustNow {
      assert l1.MinutesAgo? <==> s[|s| - 2] == '钟';
      assert l2.MinutesAgo? <==> s[|s| - 2] == '钟';
      assert l1.HoursAgo? <==> s[|s| - 2] == '时';
      assert l2.HoursAgo? <==> s[|s| - 2] == '时';
      var k := if l1.MinutesAgo? || l1.HoursAgo? then 3 else 2;
      var digits := s[..|s| - k];
      var n1 := match l1 case MinutesAgo(n) => n case HoursAgo(n) => n case DaysAgo(n) => n;
      var n2 := match l2 case MinutesAgo(n) => n case HoursAgo(n) => n case DaysAgo(n) => n;
      assert digits == NatToString(n1) && digits == NatToString(n2);
      NatToStringValue(n1);
      NatToStringValue(n2);
    }
  }

  datatype Talk = Talk(id: string, content: string, createdAt: string, images: Option<seq<string>>)

  /** The four sample talks the page starts with. */
  function InitialTalks(): seq<Talk> {
    [ Talk("1", "今天天气真好，适合出去走走 ☀️", "2024-12-10T10:30:00Z", None),
      Talk("2", "新学了一个 CSS 技巧，记录一下，这个技巧可以让页面更加美观", "2024-12-09T15:20:00Z", None),
      Talk("3", "周末去爬山了，风景很美 🏔️", "2024-12-08T09:00:00Z", None),
      Talk("4", "读完了一本好书，推荐给大家", "2024-12-07T20:30:00Z", None) ]
  }

  /** The page's state: the talk list, whether the compose box is open, and its text. */
  class TalksPage {
    var talks: seq<Talk>
    var showCompose: bool
    var newContent: string

    constructor()
      ensures talks == InitialTalks() && !showCompose && newContent == []
    {
      talks := InitialTalks();
      showCompose := false;
      newContent := [];
    }

    /** The "写点什么..." button. */
    method OpenCompose()
      modifies this
      ensures showCompose && talks == old(talks) && newContent == old(newContent)
    {
      showCompose := true;
    }

    /** The text area's `onChange`. */
    method SetContent(value: string)
      modifies this
      ensures newContent == value && talks == old(talks) && showCompose == old(showCompose)
    {
      newContent := value;
    }

    /** The cancel button: the box closes and its text is dropped. */
    method Cancel()
      modifies this
      ensures !showCompose && newContent == [] && talks == old(talks)
    {
      showCompose := false;
      newContent := [];
    }

    /** `handlePublish` at clock reading `nowMs` (`Date.now()`, also the new id) and
        `isoNow` (`toISOString()`): blank text changes nothing; otherwise one talk with the
        trimmed text is put in front of the existing ones and the box is closed and cleared. */
    method HandlePublish(nowMs: nat, isoNow: string)
      modifies this
      ensures Trim(old(newContent)) == [] ==>
                talks == old(talks) && newContent == old(newContent) && showCompose == old(showCompose)
      ensures Trim(old(newContent)) != [] ==>
                && talks == [Talk(NatToString(nowMs), Trim(old(newContent)), isoNow, None)] + old(talks)
                && newContent == [] && !showCompose
    {
      var content := Trim(newContent);
      if content == [] {
        return;
      }
      var newTalk := Talk(NatToString(nowMs), content, isoNow, None);
      talks := [newTalk] + talks;
      newContent := [];
      showCompose := false;
    }
  }
}

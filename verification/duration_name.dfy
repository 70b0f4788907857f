/** `addDurationToFileName` of webm-duration-fix.js: the recording's
    length, printed as hours, minutes and seconds, is appended to the file
    name before its `.webm` extension. Durations are whole milliseconds. */
module DurationName {
  import opened Wrappers
  import opened Text
  import opened ClockText

  /** `name.replace(/\.webm$/, '')`: one trailing ".webm" is removed. */
  function StripWebm(name: string): (r: string)
    ensures EndsWith(name, ".webm") ==> r + ".webm" == name
    ensures !EndsWith(name, ".webm") ==> r == name
  {
    if EndsWith(name, ".webm") then name[..|name| - 5] else name
  }

  /** The printed length of a recording of `ms` milliseconds. Whole
      seconds, minutes and hours are floored (`Math.floor`, which is
      Dafny's `/` for a positive divisor); the smaller units are taken
      with JavaScript's `%`. Hours appear only when there is at least one,
      minutes only when there is at least one. */
  function TimeText(ms: int): (r: string)
    ensures 2 <= |r| && r[|r| - 1] == 's'
  {
    var seconds := ms / 1000;
    var minutes := seconds / 60;
    var hours := minutes / 60;
    if hours > 0 then
      IntText(hours) + "h" + IntText(JsRem(minutes, 60)) + "m" + IntText(JsRem(seconds, 60)) + "s"
    else if minutes > 0 then
      IntText(minutes) + "m" + IntText(JsRem(seconds, 60)) + "s"
    else
      IntText(seconds) + "s"
  }

  /** `${baseName}_${timeStr}.webm`: the name without its ".webm", an
      underscore, a clock text that reads as the whole seconds of the
      recording, and ".webm". */
  function AddDurationToFileName(name: string, ms: int): (r: string)
    ensures EndsWith(r, ".webm")
    ensures |r| > |StripWebm(name)| + 7 && r[..|StripWebm(name)| + 1] == StripWebm(name) + "_"
    ensures ReadTime(r[|StripWebm(name)| + 1..|r| - 5]) == Some(ms / 1000)
  {
    var r := StripWebm(name) + "_" + TimeText(ms) + ".webm";
    TimeTextRoundTrip(ms);
    assert r[|StripWebm(name)| + 1..|r| - 5] == TimeText(ms);
    r
  }

  // ---------------------------------------------------------------------
  // Reading the name back
  // ---------------------------------------------------------------------

  /** Splits a name written by `AddDurationToFileName` into the base name
      and the number of seconds its clock text shows. */
  function ReadDurationName(r: string): Option<(string, int)>
  {
    if !EndsWith(r, ".webm") then None
    else
      var stem := r[..|r| - 5];
      var k :- LastIndex(stem, '_');
      var seconds :- ReadTime(stem[k + 1..]);
      Some((stem[..k], seconds))
  }
  /** Hours, minutes and seconds add back up to the whole seconds. */
  lemma ClockArithmetic(seconds: int)
    ensures var minutes := seconds / 60;
      seconds == (minutes / 60) * 3600 + (minutes % 60) * 60 + seconds % 60
  {
    var minutes := seconds / 60;
    assert seconds == minutes * 60 + seconds % 60;
    assert minutes == (minutes / 60) * 60 + minutes % 60;
  }

  /** A clock text with hours reads back as the whole seconds. */
  lemma TimeTextHours(ms: int)
    requires ms / 1000 / 60 / 60 > 0
    ensures ReadTime(TimeText(ms)) == Some(ms / 1000)
  {
    var seconds := ms / 1000;
    var minutes := seconds / 60;
    var hours := minutes / 60;
    var m, s := JsRem(minutes, 60), JsRem(seconds, 60);
    assert m == minutes % 60 && s == seconds % 60;
    ClockArithmetic(seconds);
    assert hours * 3600 + m * 60 + s == seconds;
    assert TimeText(ms) == IntText(hours) + "h" + IntText(m) + "m" + IntText(s) + "s";
    ReadIntText(hours);
    ReadIntText(m);
    ReadIntText(s);
    IntTextLacks(hours, 'h');
    IntTextLacks(m, 'm');
    ReadHms(IntText(hours), IntText(m), IntText(s), hours, m, s);
  }

  /** A clock text with minutes but no hours reads back as the whole
      seconds. */
  lemma TimeTextMinutes(ms: int)
    requires ms / 1000 / 60 / 60 <= 0 && ms / 1000 / 60 > 0
    ensures ReadTime(TimeText(ms)) == Some(ms / 1000)
  {
    var seconds := ms / 1000;
    var minutes := seconds / 60;
    var s := JsRem(seconds, 60);
    assert s == seconds % 60;
    ReadIntText(minutes);
    ReadIntText(s);
    IntTextLacks(minutes, 'h');
    IntTextLacks(minutes, 'm');
    IntTextLacks(s, 'h');
    ReadMs(IntText(minutes), IntText(s), minutes, s);
  }

  /** A clock text of seconds only reads back as the whole seconds. */
  lemma TimeTextSeconds(ms: int)
    requires ms / 1000 / 60 <= 0
    ensures ReadTime(TimeText(ms)) == Some(ms / 1000)
  {
    var seconds := ms / 1000;
    assert seconds / 60 / 60 <= 0;
    ReadIntText(seconds);
    IntTextLacks(seconds, 'h');
    IntTextLacks(seconds, 'm');
    ReadS(IntText(seconds));
  }

  /** The clock text reads back as the whole seconds of the duration, for
      every duration, negative ones included. */
  lemma TimeTextRoundTrip(ms: int)
    ensures ReadTime(TimeText(ms)) == Some(ms / 1000)
  {
    if ms / 1000 / 60 / 60 > 0 {
      TimeTextHours(ms);
    } else if ms / 1000 / 60 > 0 {
      TimeTextMinutes(ms);
    } else {
      TimeTextSeconds(ms);
    }
  }

  /** A clock text holds no underscore. */
  lemma TimeTextLacksUnderscore(ms: int)
    ensures Lacks(TimeText(ms), '_')
  {
    var seconds := ms / 1000;
    var minutes := seconds / 60;
    var hours := minutes / 60;
    IntTextLacks(hours, '_');
    IntTextLacks(JsRem(minutes, 60), '_');
    IntTextLacks(JsRem(seconds, 60), '_');
    IntTextLacks(minutes, '_');
    IntTextLacks(seconds, '_');
    LacksAppend(IntText(hours), "h", '_');
    LacksAppend(IntText(minutes), "m", '_');
    LacksAppend(IntText(seconds), "s", '_');
    LacksAppend(IntText(JsRem(minutes, 60)), "m", '_');
    LacksAppend(IntText(JsRem(seconds, 60)), "s", '_');
    LacksAppend(IntText(hours) + "h", IntText(JsRem(minutes, 60)) + "m", '_');
    LacksAppend(IntText(minutes) + "m", IntText(JsRem(seconds, 60)) + "s", '_');
    LacksAppend(IntText(hours) + "h" + IntText(JsRem(minutes, 60)) + "m", IntText(JsRem(seconds, 60)) + "s", '_');
  }

  /** The file name with the duration splits back into the name without
      its ".webm" and the whole seconds of the recording: the base name
      keeps any underscores of its own, and the clock text is exact. */
  lemma AddDurationRoundTrip(name: string, ms: int)
    ensures ReadDurationName(AddDurationToFileName(name, ms)) == Some((StripWebm(name), ms / 1000))
  {
    var base := StripWebm(name);
    var t := TimeText(ms);
    var r := AddDurationToFileName(name, ms);
    var stem := r[..|r| - 5];
    assert stem == base + ['_'] + t;
    TimeTextLacksUnderscore(ms);
    LastIndexSplit(base, '_', t);
    assert stem[..|base|] == base && stem[|base| + 1..] == t;
    TimeTextRoundTrip(ms);
  }
}

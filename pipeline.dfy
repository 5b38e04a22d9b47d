/** How the three scripts fit together through the names they give their
    files: a saved six-hour GeoTIFF becomes a `.nc` file that the 24-hour
    accumulation lists and files under the day of its timestamp. */
module Pipeline {
  import opened Text
  import opened DataDir
  import opened DownloadRadar
  import opened TiffToNc
  import opened Accumulate24h

  /** The shape `YYYYMMDD_HHMM` of a timestamp field. */
  predicate IsStampField(stamp: string)
  {
    |stamp| == 13 && stamp[8] == '_' && IsDigits(stamp[..8]) && IsDigits(stamp[9..])
  }

  /** Digits are neither dots nor underscores. */
  lemma DigitsHaveNoSeparators(s: string)
    requires IsDigits(s)
    ensures '.' !in s && '_' !in s
  {
  }

  /** The timestamp field of a member name that carries a timestamp has the
      `YYYYMMDD_HHMM` shape. */
  lemma {:induction false} StampOfHasShape(name: string, now: string, t: string)
    requires FirstStamp(Split(name, '_')) == Some(t)
    ensures IsStampField(StampOf(name, now))
    ensures StampOf(name, now) == t[..8] + "_" + t[8..]
  {
    var stamp := StampOf(name, now);
    assert stamp == t[..8] + "_" + t[8..12];
    assert t[8..12] == t[8..];
    assert stamp[..8] == t[..8];
    assert stamp[9..] == t[8..];
    assert forall i :: 0 <= i < 8 ==> t[..8][i] == t[i];
    assert forall i :: 0 <= i < 4 ==> t[8..][i] == t[8 + i];
  }

  /** The stem of an output name with a well-shaped timestamp field has
      no dot. */
  lemma StemIsDotFree(stamp: string)
    requires IsStampField(stamp)
    ensures '.' !in "GLD_RNN6H_" + stamp
  {
    var date, time := stamp[..8], stamp[9..];
    DigitsHaveNoSeparators(date);
    DigitsHaveNoSeparators(time);
    var stem := "GLD_RNN6H_" + stamp;
    forall i | 0 <= i < |stem| ensures stem[i] != '.' {
      if 10 <= i < 18 {
        assert stem[i] == date[i - 10];
      } else if 19 <= i {
        assert stem[i] == time[i - 19];
      }
    }
  }

  /** Converting the saved GeoTIFF swaps `.tif` for `.nc`. */
  lemma NcOfStamp(stamp: string)
    requires IsStampField(stamp)
    ensures NcName(OutputName(stamp)) == "GLD_RNN6H_" + stamp + ".nc"
  {
    var stem := "GLD_RNN6H_" + stamp;
    StemIsDotFree(stamp);
    assert OutputName(stamp) == stem + ".tif";
    assert ".tif"[1..] == "tif";
    WithSuffixReplaces(stem, ".tif", ".nc");
  }

  /** A GeoTIFF saved under a timestamp field of that shape is converted to
      a `.nc` file whose name the accumulation's glob matches, and whose day
      key is the date part of the timestamp. */
  lemma {:induction false} SavedTiffReachesDay(stamp: string)
    requires IsStampField(stamp)
    ensures IsInputName(NcName(OutputName(stamp)))
    ensures DayKey(NcName(OutputName(stamp))) == stamp[..8]
  {
    var date, time := stamp[..8], stamp[9..];
    DigitsHaveNoSeparators(date);
    NcOfStamp(stamp);
    var nc := NcName(OutputName(stamp));
    assert nc[..10] == "GLD_RNN6H_";
    assert IsInputName(nc);
    var tail := time + ".nc";
    assert stamp == date + "_" + time;
    assert nc == "GLD" + ['_'] + ("RNN6H" + ['_'] + (date + ['_'] + tail));
    SplitAfterHead("GLD", '_', "RNN6H" + ['_'] + (date + ['_'] + tail));
    SplitAfterHead("RNN6H", '_', date + ['_'] + tail);
    SplitAfterHead(date, '_', tail);
    assert Split(nc, '_') == ["GLD", "RNN6H", date] + Split(tail, '_');
  }

  /** The member-level statement: a saved member whose name carries the
      timestamp `t` ends up counted towards the day `t[..8]`, the first
      eight digits of that timestamp. */
  lemma MemberLandsOnItsDay(name: string, now: string, t: string)
    requires FirstStamp(Split(name, '_')) == Some(t)
    ensures IsInputName(NcName(OutputName(StampOf(name, now))))
    ensures DayKey(NcName(OutputName(StampOf(name, now)))) == t[..8]
  {
    StampOfHasShape(name, now, t);
    SavedTiffReachesDay(StampOf(name, now));
  }

  /** A member without a timestamp is named after the clock reading; when
      that reading has the `YYYYMMDD_HHMM` shape, its file goes to the
      day of the clock. */
  lemma ClockNamedMemberLandsOnClockDay(name: string, now: string)
    requires FirstStamp(Split(name, '_')).None?
    requires IsStampField(now)
    ensures IsInputName(NcName(OutputName(StampOf(name, now))))
    ensures DayKey(NcName(OutputName(StampOf(name, now)))) == now[..8]
  {
    SavedTiffReachesDay(now);
  }
}

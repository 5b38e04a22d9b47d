/** `download_radar.py`: keep the six-hour Gelida members of the downloaded
    archive and save each under a canonical name built from the timestamp
    in its member name. */
module DownloadRadar {
  import opened Text
  import opened DataDir

  /** An archive member: its name and, when `extractfile` returns a file,
      the raster it holds (`None` for members that are not regular files). */
  datatype Member = Member(name: string, content: Option<Raster>)

  /** The filter: a Gelida, six-hour CAPPI GeoTIFF. */
  predicate IsWanted(name: string)
  {
    Contains(name, "GLD") && Contains(name, "RNN.6HR_CAPPI") && EndsWith(name, ".tif")
  }

  /** A name built around `GLD` and `RNN.6HR_CAPPI` that ends in `.tif`
      passes the filter; appending a further extension makes it fail. */
  lemma WantedShape(a: string, b: string, c: string, ext: string)
    requires |ext| == 4 && ext != ".tif"
    ensures IsWanted(a + "GLD" + b + "RNN.6HR_CAPPI" + c + ".tif")
    ensures !IsWanted(a + "GLD" + b + "RNN.6HR_CAPPI" + c + ".tif" + ext)
  {
    var name := a + "GLD" + b + "RNN.6HR_CAPPI" + c + ".tif";
    ContainsMiddle(a, "GLD", b + "RNN.6HR_CAPPI" + c + ".tif");
    assert name == a + "GLD" + (b + "RNN.6HR_CAPPI" + c + ".tif");
    ContainsMiddle(a + "GLD" + b, "RNN.6HR_CAPPI", c + ".tif");
    assert name == a + "GLD" + b + "RNN.6HR_CAPPI" + (c + ".tif");
    assert name[|name| - 4..] == ".tif";
    var longer := name + ext;
    assert longer[|longer| - 4..] == ext;
  }

  /** An example member name passes the filter; the same name with a
      further extension does not. */
  lemma FilterExamples()
    ensures IsWanted("RAD_GLD_RNN.6HR_CAPPI_202602131200.tif")
    ensures !IsWanted("RAD_GLD_RNN.6HR_CAPPI_202602131200.tif.xml")
  {
    WantedShape("RAD_", "_", "_202602131200", ".xml");
    ExampleNamePieces();
  }

  /** The member name of `FilterExamples` around its two filter words. */
  lemma ExampleNamePieces()
    ensures "RAD_" + "GLD" + "_" + "RNN.6HR_CAPPI" + "_202602131200" + ".tif" ==
      "RAD_GLD_RNN.6HR_CAPPI_202602131200.tif"
  {
  }

  /** A `_`-separated part that can carry the timestamp. */
  predicate IsStampPart(part: string)
  {
    IsDigits(part) && |part| >= 12
  }

  /** The member name of `FilterExamples`, joined back from its
      `_`-separated parts. */
  lemma ExampleNameJoin()
    ensures Join(["RAD", "GLD", "RNN.6HR", "CAPPI"] + ["202602131200" + ".tif"], '_') ==
      "RAD_GLD_RNN.6HR_CAPPI_202602131200.tif"
  {
    var parts := ["RAD", "GLD", "RNN.6HR", "CAPPI"] + ["202602131200" + ".tif"];
    assert Join(parts[4..], '_') == "202602131200.tif";
    assert Join(parts[3..], '_') == "CAPPI" + "_" + Join(parts[4..], '_') by { assert parts[3..][1..] == parts[4..]; }
    assert Join(parts[2..], '_') == "RNN.6HR" + "_" + Join(parts[3..], '_') by { assert parts[2..][1..] == parts[3..]; }
    assert Join(parts[1..], '_') == "GLD" + "_" + Join(parts[2..], '_') by { assert parts[1..][1..] == parts[2..]; }
    assert Join(parts, '_') == "RAD" + "_" + Join(parts[1..], '_');
  }

  /** That member name carries no timestamp part: its twelve digits are
      followed by `.tif` in the same part, so the file is named after the
      clock. */
  lemma ExampleNameUsesClock(now: string)
    ensures StampOf("RAD_GLD_RNN.6HR_CAPPI_202602131200.tif", now) == now
  {
    var head := ["RAD", "GLD", "RNN.6HR", "CAPPI"];
    assert !IsStampPart(head[0]) && !IsStampPart(head[1]) && !IsStampPart(head[2]) && !IsStampPart(head[3]);
    assert '_' !in head[0] && '_' !in head[1] && '_' !in head[2] && '_' !in head[3];
    GluedStampUsesClock(head, "202602131200", ".tif", now);
    ExampleNameJoin();
  }

  /** The first twelve characters of the first part that qualifies. */
  function FirstStamp(parts: seq<string>): (ts: Option<string>)
    ensures ts.Some? ==> |ts.value| == 12 && IsDigits(ts.value)
    decreases |parts|
  {
    if |parts| == 0 then None
    else if IsStampPart(parts[0]) then Some(parts[0][..12])
    else FirstStamp(parts[1..])
  }

  /** Without a qualifying part there is no timestamp. */
  lemma {:induction false} NoStampPart(parts: seq<string>)
    requires forall i :: 0 <= i < |parts| ==> !IsStampPart(parts[i])
    ensures FirstStamp(parts) == None
    decreases |parts|
  {
    if |parts| > 0 {
      assert !IsStampPart(parts[0]);
      NoStampPart(parts[1..]);
    }
  }

  /** A timestamp written in the last `_`-separated part, directly
      followed by the extension, is not found: that part is not all
      digits, so the name is given the clock reading. */
  lemma GluedStampUsesClock(head: seq<string>, digits: string, ext: string, now: string)
    requires forall i :: 0 <= i < |head| ==> '_' !in head[i] && !IsStampPart(head[i])
    requires IsDigits(digits) && '_' !in ext
    requires |ext| > 0 && !('0' <= ext[0] <= '9')
    ensures StampOf(Join(head + [digits + ext], '_'), now) == now
  {
    var parts := head + [digits + ext];
    var last := digits + ext;
    assert last[|digits|] == ext[0];
    forall i | 0 <= i < |last| ensures last[i] != '_' {
      if i >= |digits| {
        assert last[i] == ext[i - |digits|];
      }
    }
    forall i | 0 <= i < |parts| ensures '_' !in parts[i] && !IsStampPart(parts[i]) {
      if i < |head| {
        assert parts[i] == head[i];
      }
    }
    SplitJoin(parts, '_');
    NoStampPart(parts);
  }

  /** The search loop over `name.split("_")`, leaving at the first part
      that is all digits and at least twelve long. */
  method FindTimestamp(name: string) returns (timestamp: Option<string>)
    ensures timestamp == FirstStamp(Split(name, '_'))
    ensures timestamp.None? <==>
      forall i :: 0 <= i < |Split(name, '_')| ==> !IsStampPart(Split(name, '_')[i])
    ensures timestamp.Some? ==>
      exists i :: 0 <= i < |Split(name, '_')| && IsStampPart(Split(name, '_')[i]) &&
        timestamp.value == Split(name, '_')[i][..12] &&
        forall j :: 0 <= j < i ==> !IsStampPart(Split(name, '_')[j])
  {
    var parts := Split(name, '_');
    timestamp := None;
    var i := 0;
    while i < |parts|
      invariant 0 <= i <= |parts|
      invariant timestamp == None
      invariant forall j :: 0 <= j < i ==> !IsStampPart(parts[j])
      invariant FirstStamp(parts[i..]) == FirstStamp(parts)
    {
      var part := parts[i];
      if IsDigits(part) && |part| >= 12 {
        timestamp := Some(part[..12]);
        break;
      }
      assert parts[i..][1..] == parts[i + 1..];
      i := i + 1;
    }
  }

  /** The timestamp field of the output name: the date digits, `_`, the
      time digits; without a timestamp in the name, the caller's clock
      reading `now` (`datetime.utcnow().strftime("%Y%m%d_%H%M")`). */
  function FormatStamp(ts: Option<string>, now: string): (stamp: string)
    requires ts.Some? ==> |ts.value| == 12
    ensures ts.None? ==> stamp == now
    ensures ts.Some? ==> |stamp| == 13 && stamp[8] == '_' && stamp[..8] + stamp[9..] == ts.value
  {
    match ts
    case None => now
    case Some(t) =>
      assert (t[..8] + "_" + t[8..12])[..8] + (t[..8] + "_" + t[8..12])[9..] == t[..8] + t[8..12];
      assert t[..8] + t[8..12] == t;
      t[..8] + "_" + t[8..12]
  }

  /** The timestamp field a member name yields. */
  function StampOf(name: string, now: string): string
  {
    FormatStamp(FirstStamp(Split(name, '_')), now)
  }

  /** `f"GLD_RNN6H_{timestamp}.tif"` */
  function OutputName(stamp: string): (out: string)
    ensures StartsWith(out, "GLD_RNN6H_") && EndsWith(out, ".tif")
  {
    var out := "GLD_RNN6H_" + stamp + ".tif";
    assert out[..10] == "GLD_RNN6H_";
    assert out[|out| - 4..] == ".tif";
    out
  }

  /** Whether a member is saved: it passes the filter and is a file. */
  predicate IsSaved(m: Member)
  {
    IsWanted(m.name) && m.content.Some?
  }

  /** The store after saving the members in archive order; a later member
      with the same output name overwrites an earlier one. */
  function DownloadPass(s: Store, members: seq<Member>, now: string): Store
    decreases |members|
  {
    if |members| == 0 then s
    else
      var m := members[0];
      var s1 := if IsSaved(m) then s.(tiffs := s.tiffs[OutputName(StampOf(m.name, now)) := m.content.value]) else s;
      DownloadPass(s1, members[1..], now)
  }

  /** The member loop of the script (the download, the archive reading and
      the file write itself are not modelled). */
  method SaveMembers(s: Store, members: seq<Member>, now: string) returns (s': Store)
    ensures s' == DownloadPass(s, members, now)
  {
    s' := s;
    for i := 0 to |members|
      invariant DownloadPass(s', members[i..], now) == DownloadPass(s, members, now)
    {
      var member := members[i];
      var name := member.name;
      assert members[i..][1..] == members[i + 1..];
      if !(Contains(name, "GLD") && Contains(name, "RNN.6HR_CAPPI") && EndsWith(name, ".tif")) {
        continue;
      }
      var extracted := member.content;
      if extracted.None? {
        continue;
      }
      var timestamp := FindTimestamp(name);
      var stamp := FormatStamp(timestamp, now);
      var outName := OutputName(stamp);
      s' := s'.(tiffs := s'.tiffs[outName := extracted.value]);
    }
  }

  /** The members that are saved, in archive order. */
  function Saved(members: seq<Member>): (kept: seq<Member>)
    ensures forall m :: m in kept <==> m in members && IsSaved(m)
    decreases |members|
  {
    if |members| == 0 then []
    else if IsSaved(members[0]) then [members[0]] + Saved(members[1..])
    else Saved(members[1..])
  }

  /** Members that fail the filter, or are not files, change nothing: the
      store depends only on the saved members. */
  lemma {:induction false} OnlySavedMembersMatter(s: Store, members: seq<Member>, now: string)
    ensures DownloadPass(s, members, now) == DownloadPass(s, Saved(members), now)
    decreases |members|
  {
    if |members| > 0 {
      var m := members[0];
      var s1 := if IsSaved(m) then s.(tiffs := s.tiffs[OutputName(StampOf(m.name, now)) := m.content.value]) else s;
      OnlySavedMembersMatter(s1, members[1..], now);
      if IsSaved(m) {
        assert ([m] + Saved(members[1..]))[1..] == Saved(members[1..]);
      }
    }
  }

  /** A download writes only `.tif` files, and each file it writes or
      overwrites is named after a saved member and holds that member's
      raster. No `.nc` file is touched. */
  lemma {:induction false} DownloadFrame(s: Store, members: seq<Member>, now: string)
    ensures DownloadPass(s, members, now).ncs == s.ncs
    ensures forall n :: n in s.tiffs ==> n in DownloadPass(s, members, now).tiffs
    ensures forall n :: (n in DownloadPass(s, members, now).tiffs &&
      (n !in s.tiffs || DownloadPass(s, members, now).tiffs[n] != s.tiffs[n])) ==>
      exists i :: (0 <= i < |members| && IsSaved(members[i]) &&
        n == OutputName(StampOf(members[i].name, now)) &&
        DownloadPass(s, members, now).tiffs[n] == members[i].content.value)
    decreases |members|
  {
    if |members| > 0 {
      var m := members[0];
      var s1 := if IsSaved(m) then s.(tiffs := s.tiffs[OutputName(StampOf(m.name, now)) := m.content.value]) else s;
      var rest := members[1..];
      DownloadFrame(s1, rest, now);
      var out := DownloadPass(s, members, now);
      assert out == DownloadPass(s1, rest, now);
      forall n | n in out.tiffs && (n !in s.tiffs || out.tiffs[n] != s.tiffs[n])
        ensures exists i :: (0 <= i < |members| && IsSaved(members[i]) &&
          n == OutputName(StampOf(members[i].name, now)) && out.tiffs[n] == members[i].content.value)
      {
        if n in s1.tiffs && out.tiffs[n] == s1.tiffs[n] {
          assert IsSaved(m) && n == OutputName(StampOf(m.name, now));
          assert members[0] == m;
        } else {
          var i :| 0 <= i < |rest| && IsSaved(rest[i]) &&
            n == OutputName(StampOf(rest[i].name, now)) && out.tiffs[n] == rest[i].content.value;
          assert rest[i] == members[i + 1];
        }
      }
    }
  }

  /** Every saved member gets its file: after a download the output name of
      each member that passes the filter and is a file exists. */
  lemma {:induction false} DownloadCovers(s: Store, members: seq<Member>, now: string)
    ensures forall i :: 0 <= i < |members| && IsSaved(members[i]) ==>
      OutputName(StampOf(members[i].name, now)) in DownloadPass(s, members, now).tiffs
    decreases |members|
  {
    if |members| > 0 {
      var m := members[0];
      var s1 := if IsSaved(m) then s.(tiffs := s.tiffs[OutputName(StampOf(m.name, now)) := m.content.value]) else s;
      var rest := members[1..];
      DownloadCovers(s1, rest, now);
      DownloadFrame(s1, rest, now);
      assert DownloadPass(s, members, now) == DownloadPass(s1, rest, now);
      forall i | 1 <= i < |members| ensures members[i] == rest[i - 1] {
      }
    }
  }

  /** `open(out_path, "wb")` overwrites: the file of a saved member holds
      that member's raster when no later saved member has the same output
      name, so each name ends up with the last such member's content. */
  lemma {:induction false} DownloadLastWins(s: Store, members: seq<Member>, now: string, j: nat)
    requires j < |members| && IsSaved(members[j])
    requires forall k :: j < k < |members| && IsSaved(members[k]) ==>
      OutputName(StampOf(members[k].name, now)) != OutputName(StampOf(members[j].name, now))
    ensures OutputName(StampOf(members[j].name, now)) in DownloadPass(s, members, now).tiffs
    ensures DownloadPass(s, members, now).tiffs[OutputName(StampOf(members[j].name, now))] == members[j].content.value
    decreases |members|
  {
    var m := members[0];
    var s1 := if IsSaved(m) then s.(tiffs := s.tiffs[OutputName(StampOf(m.name, now)) := m.content.value]) else s;
    var rest := members[1..];
    var out := DownloadPass(s, members, now);
    assert out == DownloadPass(s1, rest, now);
    var n := OutputName(StampOf(members[j].name, now));
    if j == 0 {
      forall i | 0 <= i < |rest| && IsSaved(rest[i]) ensures n != OutputName(StampOf(rest[i].name, now)) {
        assert rest[i] == members[i + 1];
      }
      DownloadFrame(s1, rest, now);
    } else {
      forall k | j - 1 < k < |rest| && IsSaved(rest[k])
        ensures OutputName(StampOf(rest[k].name, now)) != n
      {
        assert rest[k] == members[k + 1];
      }
      DownloadLastWins(s1, rest, now, j - 1);
    }
  }
}

/** The tag registry of src/wl_log.c: the excluded-tag list, the per-tag level
    table, the tag match used by every scan, and what each mutator does to the
    table contents. The tables themselves live in `Logging.Logger`. */
module Tags {
  import opened Strings
  import opened Levels

  const MaxExcludedTags: nat := 10
  const MaxTagLength: nat := 20
  const MaxLogLevelTags: nat := 10

  /** global_log_level: never reassigned by the library. */
  const GlobalLogLevel: Level := Verbose

  type Tag = string

  /** One entry of log_levels. */
  datatype TagLevel = TagLevel(tag: Tag, level: Level)

  /** What a table slot holds after `strncpy(slot, tag, MAX_TAG_LENGTH - 1)` and
      the NUL written at index MAX_TAG_LENGTH - 1. */
  function Stored(tag: Tag): (r: Tag)
    ensures |r| == Min(|tag|, MaxTagLength - 1) && r == tag[..|r|]
  {
    Prefix(tag, MaxTagLength - 1)
  }

  /** `strncmp(stored, tag, MAX_TAG_LENGTH) == 0` for NUL-free strings: the two
      agree on their first MAX_TAG_LENGTH characters, a string's end counting as
      a character of its own. */
  predicate Matches(stored: Tag, tag: Tag)
  {
    Prefix(stored, MaxTagLength) == Prefix(tag, MaxTagLength)
  }

  /** Every entry is something `Stored` can produce: at most 19 characters. */
  predicate AllStored(tags: seq<Tag>)
  {
    forall i :: 0 <= i < |tags| ==> |tags[i]| < MaxTagLength
  }

  predicate Distinct(tags: seq<Tag>)
  {
    forall i, j :: 0 <= i < j < |tags| ==> tags[i] != tags[j]
  }

  function TagsOf(entries: seq<TagLevel>): (r: seq<Tag>)
    ensures |r| == |entries|
    ensures forall i :: 0 <= i < |r| ==> r[i] == entries[i].tag
  {
    seq(|entries|, i requires 0 <= i < |entries| => entries[i].tag)
  }

  lemma StoredIsShort(tag: Tag)
    ensures |Stored(tag)| < MaxTagLength
    ensures |tag| < MaxTagLength ==> Stored(tag) == tag
  {
  }

  /** A stored (short) tag matches exactly itself; a tag of MAX_TAG_LENGTH
      characters or more matches nothing that is stored. */
  lemma MatchesStored(stored: Tag, tag: Tag)
    requires |stored| < MaxTagLength
    ensures Matches(stored, tag) <==> stored == tag
    ensures |tag| >= MaxTagLength ==> !Matches(stored, tag)
  {
    if Matches(stored, tag) {
      assert Prefix(stored, MaxTagLength) == stored;
      assert |Prefix(tag, MaxTagLength)| == |stored| < MaxTagLength;
    }
  }

  /** Outcome of a linear scan over a table. */
  datatype Lookup = Absent | At(index: nat)

  /** The scan `for (i = 0; i < count; i++) if (strncmp(tags[i], tag, 20) == 0) ...`:
      the first matching index, if any. */
  function Find(tags: seq<Tag>, tag: Tag): (r: Lookup)
    ensures r.At? ==> r.index < |tags| && Matches(tags[r.index], tag)
    ensures r.At? ==> forall j :: 0 <= j < r.index ==> !Matches(tags[j], tag)
    ensures r.Absent? <==> forall j :: 0 <= j < |tags| ==> !Matches(tags[j], tag)
  {
    if tags == [] then Absent
    else if Matches(tags[0], tag) then At(0)
    else match Find(tags[1..], tag)
      case Absent => Absent
      case At(k) => At(k + 1)
  }

  /** is_tag_excluded */
  function IsTagExcluded(excluded: seq<Tag>, tag: Tag): (r: bool)
    ensures r <==> exists i :: 0 <= i < |excluded| && Matches(excluded[i], tag)
  {
    Find(excluded, tag).At?
  }

  /** get_tag_level: the level of the first matching entry, else the global level. */
  function GetTagLevel(entries: seq<TagLevel>, tag: Tag): (r: Level)
    ensures (forall i :: 0 <= i < |entries| ==> !Matches(entries[i].tag, tag)) ==> r == GlobalLogLevel
    ensures forall i :: 0 <= i < |entries| && Matches(entries[i].tag, tag)
                     && (forall j :: 0 <= j < i ==> !Matches(entries[j].tag, tag))
                     ==> r == entries[i].level
  {
    match Find(TagsOf(entries), tag)
    case Absent => GlobalLogLevel
    case At(i) => entries[i].level
  }

  /** The filter at the top of wl_log_print, wl_log_buffer_hex and wl_log_dump:
      a call goes ahead unless `level > get_tag_level(tag) || is_tag_excluded(tag)`. */
  predicate Allows(entries: seq<TagLevel>, excluded: seq<Tag>, level: Level, tag: Tag)
  {
    !(level.Value() > GetTagLevel(entries, tag).Value() || IsTagExcluded(excluded, tag))
  }

  /** The excluded list after wl_log_exclude_tag(tag). */
  function Excluding(excluded: seq<Tag>, tag: Tag): seq<Tag>
  {
    if |excluded| < MaxExcludedTags && !IsTagExcluded(excluded, tag)
    then excluded + [Stored(tag)]
    else excluded
  }

  /** The excluded list after wl_log_include_tag(tag): the first match is removed
      and the entries after it move one place left. */
  function Including(excluded: seq<Tag>, tag: Tag): seq<Tag>
  {
    match Find(excluded, tag)
    case Absent => excluded
    case At(i) => excluded[..i] + excluded[i + 1..]
  }

  /** The level table after wl_log_set_level(tag, level). */
  function SettingLevel(entries: seq<TagLevel>, tag: Tag, level: Level): seq<TagLevel>
  {
    match Find(TagsOf(entries), tag)
    case At(i) => entries[i := TagLevel(entries[i].tag, level)]
    case Absent =>
      if |entries| < MaxLogLevelTags then entries + [TagLevel(Stored(tag), level)] else entries
  }

  // ---------------------------------------------------------------------------
  // The scan over a table that grows at its end

  lemma FindAppend(tags: seq<Tag>, x: Tag, tag: Tag)
    ensures Find(tags + [x], tag) ==
      if Find(tags, tag).At? then Find(tags, tag)
      else if Matches(x, tag) then At(|tags|)
      else Absent
  {
    var s := tags + [x];
    assert forall j :: 0 <= j < |tags| ==> s[j] == tags[j];
    match Find(tags, tag)
    case At(i) =>
      assert Matches(s[i], tag);
    case Absent =>
      assert Matches(x, tag) ==> Matches(s[|tags|], tag);
  }

  lemma TagsOfAppend(entries: seq<TagLevel>, e: TagLevel)
    ensures TagsOf(entries + [e]) == TagsOf(entries) + [e.tag]
  {
  }

  // ---------------------------------------------------------------------------
  // wl_log_exclude_tag

  /** The list never grows beyond its capacity and only ever holds stored tags. */
  lemma ExcludingBounded(excluded: seq<Tag>, tag: Tag)
    requires |excluded| <= MaxExcludedTags && AllStored(excluded)
    ensures |Excluding(excluded, tag)| <= MaxExcludedTags
    ensures AllStored(Excluding(excluded, tag))
  {
    StoredIsShort(tag);
  }

  /** Excluding a tag of fewer than MAX_TAG_LENGTH characters never stores a
      duplicate, and when there is room the tag is excluded afterwards. */
  lemma ExcludingNoDuplicate(excluded: seq<Tag>, tag: Tag)
    requires AllStored(excluded) && Distinct(excluded) && |tag| < MaxTagLength
    ensures Distinct(Excluding(excluded, tag))
    ensures |excluded| < MaxExcludedTags ==> IsTagExcluded(Excluding(excluded, tag), tag)
  {
    StoredIsShort(tag);
    var r := Excluding(excluded, tag);
    if r != excluded {
      forall i | 0 <= i < |excluded| ensures excluded[i] != tag {
        MatchesStored(excluded[i], tag);
      }
      assert r[|excluded|] == tag;
      assert Matches(r[|excluded|], tag);
    } else if |excluded| < MaxExcludedTags {
      assert IsTagExcluded(excluded, tag);
    }
  }

  /** A second exclude of the same short tag changes nothing. */
  lemma ExcludingIdempotent(excluded: seq<Tag>, tag: Tag)
    requires |tag| < MaxTagLength
    ensures Excluding(Excluding(excluded, tag), tag) == Excluding(excluded, tag)
  {
    var r := Excluding(excluded, tag);
    if r != excluded {
      StoredIsShort(tag);
      assert Matches(r[|excluded|], tag);
      assert IsTagExcluded(r, tag);
    }
  }

  /** Exclude affects no other tag: a different tag is excluded afterwards iff it
      was before. */
  lemma ExcludingKeepsOthers(excluded: seq<Tag>, tag: Tag, other: Tag)
    requires |tag| < MaxTagLength && other != tag
    ensures IsTagExcluded(Excluding(excluded, tag), other) == IsTagExcluded(excluded, other)
  {
    var r := Excluding(excluded, tag);
    if r != excluded {
      StoredIsShort(tag);
      MatchesStored(tag, other);
      FindAppend(excluded, tag, other);
    }
  }

  // ---------------------------------------------------------------------------
  // wl_log_include_tag

  /** Include removes exactly one entry, the first match, keeping the order of the
      rest; an absent tag leaves the list as it was. */
  lemma IncludingRemovesFirstMatch(excluded: seq<Tag>, tag: Tag)
    ensures IsTagExcluded(excluded, tag) ==> |Including(excluded, tag)| == |excluded| - 1
    ensures !IsTagExcluded(excluded, tag) ==> Including(excluded, tag) == excluded
    ensures forall i :: 0 <= i < |Including(excluded, tag)| ==>
              Including(excluded, tag)[i] == excluded[if Find(excluded, tag).At? && i >= Find(excluded, tag).index then i + 1 else i]
  {
  }

  /** On a list of distinct stored tags, include un-excludes the tag. */
  lemma IncludingUnexcludes(excluded: seq<Tag>, tag: Tag)
    requires AllStored(excluded) && Distinct(excluded)
    ensures !IsTagExcluded(Including(excluded, tag), tag)
  {
    var r := Including(excluded, tag);
    match Find(excluded, tag)
    case Absent =>
    case At(k) =>
      MatchesStored(excluded[k], tag);
      forall i | 0 <= i < |r| ensures !Matches(r[i], tag) {
        var j := if i < k then i else i + 1;
        assert r[i] == excluded[j];
        MatchesStored(excluded[j], tag);
      }
  }

  /** Include of one short tag leaves every other tag's exclusion as it was. */
  lemma IncludingKeepsOthers(excluded: seq<Tag>, tag: Tag, other: Tag)
    requires AllStored(excluded) && other != tag
    ensures IsTagExcluded(Including(excluded, tag), other) == IsTagExcluded(excluded, other)
  {
    match Find(excluded, tag)
    case Absent =>
    case At(k) =>
      MatchesStored(excluded[k], tag);
      MatchesStored(excluded[k], other);
      RemovalKeepsMatches(excluded, k, other);
  }

  /** Removing an entry that does not match `other` keeps whether some entry
      matches it. */
  lemma RemovalKeepsMatches(tags: seq<Tag>, k: nat, other: Tag)
    requires k < |tags| && !Matches(tags[k], other)
    ensures IsTagExcluded(tags[..k] + tags[k + 1..], other) == IsTagExcluded(tags, other)
  {
    var r := tags[..k] + tags[k + 1..];
    if IsTagExcluded(tags, other) {
      var j :| 0 <= j < |tags| && Matches(tags[j], other);
      var i := if j < k then j else j - 1;
      assert r[i] == tags[j];
    }
    if IsTagExcluded(r, other) {
      var i :| 0 <= i < |r| && Matches(r[i], other);
      assert r[i] == tags[if i < k then i else i + 1];
    }
  }

  /** Removing an entry keeps a table of stored tags stored. */
  lemma RemovalKeepsStored(tags: seq<Tag>, k: nat)
    requires AllStored(tags) && k < |tags|
    ensures AllStored(tags[..k] + tags[k + 1..])
  {
    var r := tags[..k] + tags[k + 1..];
    forall i | 0 <= i < |r| ensures |r[i]| < MaxTagLength {
      assert r[i] == tags[if i < k then i else i + 1];
    }
  }

  /** Exclude followed by include of the same tag leaves it not excluded. */
  lemma ExcludeThenInclude(excluded: seq<Tag>, tag: Tag)
    requires AllStored(excluded) && Distinct(excluded)
    ensures !IsTagExcluded(Including(Excluding(excluded, tag), tag), tag)
  {
    var e := Excluding(excluded, tag);
    StoredIsShort(tag);
    if |tag| < MaxTagLength {
      ExcludingNoDuplicate(excluded, tag);
      IncludingUnexcludes(e, tag);
    } else {
      var r := Including(e, tag);
      forall i | 0 <= i < |r| ensures !Matches(r[i], tag) {
        assert r[i] in e;
        MatchesStored(r[i], tag);
      }
    }
  }

  /** ... and when the tag was not excluded, the list is exactly as before:
      with room the new entry is removed again, and on a full list both calls
      leave it alone. */
  lemma ExcludeThenIncludeRestores(excluded: seq<Tag>, tag: Tag)
    requires |tag| < MaxTagLength
    requires !IsTagExcluded(excluded, tag)
    ensures Including(Excluding(excluded, tag), tag) == excluded
  {
    if |excluded| < MaxExcludedTags {
      StoredIsShort(tag);
      assert Excluding(excluded, tag) == excluded + [tag];
      FindAppend(excluded, tag, tag);
      assert (excluded + [tag])[..|excluded|] == excluded;
    } else {
      assert Excluding(excluded, tag) == excluded;
      assert Find(excluded, tag).Absent?;
    }
  }

  /** A tag of MAX_TAG_LENGTH characters or more is stored truncated, so the
      duplicate check never sees it: excluding it twice fills two slots, and a
      short tag that equals the truncation stays excluded after one include. */
  lemma LongTagIsStoredTwice()
    ensures var short := "abcdefghijklmnopqrs";
            var long := short + "t";
            && Excluding(Excluding([], long), long) == [short, short]
            && Excluding(Excluding([], short), long) == [short, short]
            && IsTagExcluded(Including([short, short], short), short)
            && !IsTagExcluded([short, short], long)
  {
    var short := "abcdefghijklmnopqrs";
    var long := short + "t";
    assert |short| == 19 && |long| == 20;
    assert Stored(long) == short;
    MatchesStored(short, long);
    MatchesStored(short, short);
    assert Excluding([], long) == [short];
    assert Find([short], long) == Absent;
    assert Excluding([], short) == [short];
    assert Find([short, short], short) == At(0);
    assert Including([short, short], short) == [short];
  }

  // ---------------------------------------------------------------------------
  // wl_log_set_level

  /** The table never grows beyond its capacity and only ever holds stored tags. */
  lemma SettingLevelBounded(entries: seq<TagLevel>, tag: Tag, level: Level)
    requires |entries| <= MaxLogLevelTags && AllStored(TagsOf(entries))
    ensures |SettingLevel(entries, tag, level)| <= MaxLogLevelTags
    ensures AllStored(TagsOf(SettingLevel(entries, tag, level)))
  {
    StoredIsShort(tag);
    var r := SettingLevel(entries, tag, level);
    assert forall i :: 0 <= i < |r| && i < |entries| ==> r[i].tag == entries[i].tag;
  }

  /** On a tag already present only that entry's level changes; a new tag is
      appended when there is room; otherwise the table is unchanged. */
  lemma SettingLevelShape(entries: seq<TagLevel>, tag: Tag, level: Level)
    ensures Find(TagsOf(entries), tag).At? ==>
              && TagsOf(SettingLevel(entries, tag, level)) == TagsOf(entries)
              && SettingLevel(entries, tag, level)[Find(TagsOf(entries), tag).index].level == level
              && forall i :: 0 <= i < |entries| && i != Find(TagsOf(entries), tag).index ==>
                   SettingLevel(entries, tag, level)[i] == entries[i]
    ensures Find(TagsOf(entries), tag).Absent? && |entries| < MaxLogLevelTags ==>
              SettingLevel(entries, tag, level) == entries + [TagLevel(Stored(tag), level)]
    ensures Find(TagsOf(entries), tag).Absent? && |entries| >= MaxLogLevelTags ==>
              SettingLevel(entries, tag, level) == entries
  {
  }

  /** After set_level the tag's effective level is the one set, unless the table
      was full and the tag new (or the tag is too long to ever match). */
  lemma SettingLevelTakesEffect(entries: seq<TagLevel>, tag: Tag, level: Level)
    requires |tag| < MaxTagLength
    requires Find(TagsOf(entries), tag).At? || |entries| < MaxLogLevelTags
    ensures GetTagLevel(SettingLevel(entries, tag, level), tag) == level
  {
    var r := SettingLevel(entries, tag, level);
    match Find(TagsOf(entries), tag)
    case At(i) =>
      assert TagsOf(r) == TagsOf(entries);
    case Absent =>
      StoredIsShort(tag);
      TagsOfAppend(entries, TagLevel(tag, level));
      FindAppend(TagsOf(entries), tag, tag);
  }

  /** set_level on one short tag leaves every other tag's effective level alone. */
  lemma SettingLevelKeepsOthers(entries: seq<TagLevel>, tag: Tag, level: Level, other: Tag)
    requires AllStored(TagsOf(entries)) && |tag| < MaxTagLength && other != tag
    ensures GetTagLevel(SettingLevel(entries, tag, level), other) == GetTagLevel(entries, other)
  {
    var r := SettingLevel(entries, tag, level);
    match Find(TagsOf(entries), tag)
    case At(i) =>
      assert TagsOf(r) == TagsOf(entries);
      MatchesStored(entries[i].tag, tag);
      MatchesStored(entries[i].tag, other);
    case Absent =>
      if |entries| < MaxLogLevelTags {
        StoredIsShort(tag);
        TagsOfAppend(entries, TagLevel(tag, level));
        FindAppend(TagsOf(entries), tag, other);
        MatchesStored(tag, other);
      }
  }

  /** Last write wins: two set_level calls on one short tag act as the second alone. */
  lemma SettingLevelLastWriteWins(entries: seq<TagLevel>, tag: Tag, first: Level, second: Level)
    requires |tag| < MaxTagLength
    ensures SettingLevel(SettingLevel(entries, tag, first), tag, second) == SettingLevel(entries, tag, second)
  {
    var r := SettingLevel(entries, tag, first);
    match Find(TagsOf(entries), tag)
    case At(i) =>
      assert TagsOf(r) == TagsOf(entries);
      assert Find(TagsOf(r), tag) == At(i);
      assert r[i := TagLevel(r[i].tag, second)] == entries[i := TagLevel(entries[i].tag, second)];
    case Absent =>
      if |entries| < MaxLogLevelTags {
        StoredIsShort(tag);
        TagsOfAppend(entries, TagLevel(tag, first));
        FindAppend(TagsOf(entries), tag, tag);
        assert Find(TagsOf(r), tag) == At(|entries|);
        assert r[|entries| := TagLevel(tag, second)] == entries + [TagLevel(tag, second)];
      }
  }

  /** One entry per tag: set_level of a short tag keeps the table's tags distinct. */
  lemma SettingLevelOneEntryPerTag(entries: seq<TagLevel>, tag: Tag, level: Level)
    requires AllStored(TagsOf(entries)) && Distinct(TagsOf(entries)) && |tag| < MaxTagLength
    ensures Distinct(TagsOf(SettingLevel(entries, tag, level)))
  {
    var r := SettingLevel(entries, tag, level);
    match Find(TagsOf(entries), tag)
    case At(i) =>
      assert TagsOf(r) == TagsOf(entries);
    case Absent =>
      if |entries| < MaxLogLevelTags {
        StoredIsShort(tag);
        TagsOfAppend(entries, TagLevel(tag, level));
        forall i | 0 <= i < |entries| ensures entries[i].tag != tag {
          MatchesStored(entries[i].tag, tag);
          assert TagsOf(entries)[i] == entries[i].tag;
        }
      }
  }

  /** The same truncation in set_level: a 20-character tag sets the level of
      its 19-character cut, never its own, and each call takes a new slot. */
  lemma LongTagLevelIsStoredTwice()
    ensures var short := "abcdefghijklmnopqrs";
            var long := short + "t";
            var table := SettingLevel(SettingLevel([], long, Error), long, Error);
            && table == [TagLevel(short, Error), TagLevel(short, Error)]
            && GetTagLevel(table, long) == Verbose
            && GetTagLevel(table, short) == Error
  {
    var short := "abcdefghijklmnopqrs";
    var long := short + "t";
    assert |short| == 19 && |long| == 20;
    assert Stored(long) == short;
    MatchesStored(short, long);
    MatchesStored(short, short);
    assert TagsOf([]) == [];
    assert SettingLevel([], long, Error) == [TagLevel(short, Error)];
    assert TagsOf([TagLevel(short, Error)]) == [short];
    assert Find([short], long) == Absent;
    var table := [TagLevel(short, Error), TagLevel(short, Error)];
    assert TagsOf(table) == [short, short];
  }

  // ---------------------------------------------------------------------------
  // The filter

  /** Exclusion overrides every level; otherwise a call passes iff its level is at
      most the effective level, which is the first matching override's level, or
      WL_LOG_VERBOSE (so everything passes) when no override matches. */
  lemma AllowsExplained(entries: seq<TagLevel>, excluded: seq<Tag>, level: Level, tag: Tag)
    ensures IsTagExcluded(excluded, tag) ==> !Allows(entries, excluded, level, tag)
    ensures !IsTagExcluded(excluded, tag) && Find(TagsOf(entries), tag).Absent? ==>
              Allows(entries, excluded, level, tag)
    ensures !IsTagExcluded(excluded, tag) && Find(TagsOf(entries), tag).At? ==>
              (Allows(entries, excluded, level, tag) <==>
               level.Value() <= entries[Find(TagsOf(entries), tag).index].level.Value())
  {
  }

  /** examples/level_by_log.c: with "sensor" at DEBUG a DEBUG call passes; after
      lowering it to WARN an INFO call is dropped and a WARN call passes. */
  lemma SensorScenario()
    ensures var t1 := SettingLevel([], "sensor", Debug);
            var t2 := SettingLevel(t1, "sensor", Warn);
            && Allows(t1, [], Debug, "sensor")
            && !Allows(t2, [], Info, "sensor")
            && !Allows(t2, [], Debug, "sensor")
            && Allows(t2, [], Warn, "sensor")
            && Allows(t2, [], Error, "sensor")
  {
    SettingLevelTakesEffect([], "sensor", Debug);
    var t1 := SettingLevel([], "sensor", Debug);
    SettingLevelTakesEffect(t1, "sensor", Warn);
  }

  /** examples/tags_on_runtime.c: "network" is dropped while excluded and passes
      again once included. */
  lemma NetworkScenario()
    ensures var x1 := Excluding([], "network");
            var x2 := Including(x1, "network");
            && !Allows([], x1, Error, "network")
            && Allows([], x2, Info, "network")
  {
    ExcludingNoDuplicate([], "network");
    ExcludeThenInclude([], "network");
  }
}

/** The logger of src/wl_log.c as one object: the static tag tables and their
    counts, the fallback ring buffer, and the console the library prints to. */
module Logging {
  import opened Strings
  import opened Levels
  import opened Tags
  import opened Format
  import opened RingBuffer

  /** The build-time switches of include/wl_log.h and src/wl_log.c. */
  datatype Config = Config(
    disableColors: bool,    // WL_LOG_DISABLE_COLORS is defined
    stdoutAvailable: bool,  // what stdout_available() returns on the target
    overwrite: bool,        // WL_LOG_BUFFER_OVERWRITE is defined
    bufferSize: nat)        // WL_LOG_BUFFER_SIZE

  /** The build with no switch defined. */
  const DefaultConfig := Config(false, true, false, DefaultBufferSize)

  /** The `printf` diagnostics of the table mutators, as a result instead of text. */
  datatype Diagnostic = Silent | TagListFull | TagNotFound | LevelListFull

  /** Where log_output sends text: the console, or the ring buffer when stdout is
      unavailable. */
  datatype Sinks = Sinks(console: string, queued: seq<char>)

  /** The sinks after log_output(text), for a ring of `capacity` usable bytes. */
  function Delivered(stdoutAvailable: bool, overwrite: bool, capacity: nat, s: Sinks, text: string): Sinks
    requires |s.queued| <= capacity
  {
    if stdoutAvailable then s.(console := s.console + text)
    else s.(queued := Enqueued(overwrite, capacity, s.queued, text))
  }

  /** Delivering two texts in turn is delivering their concatenation: so the
      many log_output calls of one hex or dump call act as one. */
  lemma DeliveredCompose(stdoutAvailable: bool, overwrite: bool, capacity: nat, s: Sinks, a: string, b: string)
    requires |s.queued| <= capacity
    ensures |Delivered(stdoutAvailable, overwrite, capacity, s, a).queued| <= capacity
    ensures Delivered(stdoutAvailable, overwrite, capacity, Delivered(stdoutAvailable, overwrite, capacity, s, a), b)
         == Delivered(stdoutAvailable, overwrite, capacity, s, a + b)
  {
    EnqueuedCompose(overwrite, capacity, s.queued, a, b);
    assert (s.console + a) + b == s.console + (a + b);
  }

  /** With stdout available the console receives exactly the text and the ring
      is untouched; otherwise the console is untouched. Empty text changes
      nothing. */
  lemma DeliveredRoutes(stdoutAvailable: bool, overwrite: bool, capacity: nat, s: Sinks, text: string)
    requires |s.queued| <= capacity
    ensures stdoutAvailable ==> Delivered(stdoutAvailable, overwrite, capacity, s, text) == Sinks(s.console + text, s.queued)
    ensures !stdoutAvailable ==> Delivered(stdoutAvailable, overwrite, capacity, s, text).console == s.console
    ensures Delivered(stdoutAvailable, overwrite, capacity, s, "") == s
  {
    EnqueuedNothing(overwrite, capacity, s.queued);
    assert s.console + "" == s.console;
  }

  class Logger {
    /** WL_LOG_USE_COLORS */
    const useColors: bool
    const stdoutAvailable: bool
    /** excluded_tags and excluded_tag_count */
    const excluded: array<Tag>
    var excludedCount: nat
    /** log_levels and log_levels_count */
    const levels: array<TagLevel>
    var levelCount: nat
    /** log_buffer */
    const ring: Ring
    /** Everything printed to stdout so far. */
    var output: string

    /** The tables stay within their capacity and hold only what the truncating
        copy can store (at most MAX_TAG_LENGTH - 1 characters). */
    ghost predicate Valid()
      reads this, ring, excluded, levels
    {
      && excluded.Length == MaxExcludedTags && excludedCount <= MaxExcludedTags
      && levels.Length == MaxLogLevelTags && levelCount <= MaxLogLevelTags
      && AllStored(excluded[..excludedCount])
      && AllStored(TagsOf(levels[..levelCount]))
      && ring.Valid()
    }

    /** The live part of excluded_tags. */
    ghost function ExcludedTags(): seq<Tag>
      reads this, ring, excluded, levels
      requires Valid()
    {
      excluded[..excludedCount]
    }

    /** The live part of log_levels. */
    ghost function LevelTable(): seq<TagLevel>
      reads this, ring, excluded, levels
      requires Valid()
    {
      levels[..levelCount]
    }

    ghost function State(): Sinks
      reads this, ring, ring.data, excluded, levels
      requires Valid()
    {
      Sinks(output, ring.Contents())
    }

    /** The sinks after log_output(text) from the state `s`. */
    ghost function After(s: Sinks, text: string): Sinks
      requires |s.queued| <= ring.size - 1
    {
      Delivered(stdoutAvailable, ring.overwrite, ring.size - 1, s, text)
    }

    /** Delivering `a` and then `b` is delivering `a + b`. */
    lemma AfterCompose(s: Sinks, a: string, b: string)
      requires |s.queued| <= ring.size - 1
      ensures |After(s, a).queued| <= ring.size - 1
      ensures After(After(s, a), b) == After(s, a + b)
    {
      DeliveredCompose(stdoutAvailable, ring.overwrite, ring.size - 1, s, a, b);
    }

    /** The zero-initialised statics of a program built with `config`, after
        wl_log_init (whose mutex and UART set-up is not modelled). */
    constructor (config: Config)
      requires config.bufferSize >= 1
      ensures Valid() && fresh(ring) && fresh(ring.data) && fresh(excluded) && fresh(levels)
      ensures useColors == !config.disableColors && stdoutAvailable == config.stdoutAvailable
      ensures ring.size == config.bufferSize && ring.overwrite == config.overwrite
      ensures ExcludedTags() == [] && LevelTable() == [] && State() == Sinks("", [])
    {
      useColors := !config.disableColors;
      stdoutAvailable := config.stdoutAvailable;
      excluded := new Tag[MaxExcludedTags](_ => "");
      excludedCount := 0;
      levels := new TagLevel[MaxLogLevelTags](_ => TagLevel("", None));
      levelCount := 0;
      ring := new Ring(config.bufferSize, config.overwrite);
      output := "";
    }

    // -------------------------------------------------------------------------
    // The tag tables

    /** wl_log_exclude_tag */
    method ExcludeTag(tag: Tag) returns (d: Diagnostic)
      requires Valid()
      modifies this`excludedCount, excluded
      ensures Valid()
      ensures ExcludedTags() == Excluding(old(ExcludedTags()), tag)
      ensures d == if |old(ExcludedTags())| < MaxExcludedTags then Silent else TagListFull
    {
      if excludedCount < MaxExcludedTags {
        var i := 0;
        while i < excludedCount
          invariant i <= excludedCount
          invariant forall k :: 0 <= k < i ==> !Matches(excluded[k], tag)
        {
          if Matches(excluded[i], tag) {
            assert Matches(ExcludedTags()[i], tag);
            return Silent;
          }
          i := i + 1;
        }
        assert !IsTagExcluded(ExcludedTags(), tag);
        ExcludingBounded(ExcludedTags(), tag);
        excluded[excludedCount] := Stored(tag);
        excludedCount := excludedCount + 1;
        assert ExcludedTags() == old(ExcludedTags()) + [Stored(tag)];
        d := Silent;
      } else {
        d := TagListFull;
      }
    }

    /** The inner loop of wl_log_include_tag: every entry after slot `i` moves
        one slot left and the count drops by one. */
    method RemoveExcludedAt(i: nat)
      requires Valid() && i < excludedCount
      modifies this`excludedCount, excluded
      ensures Valid()
      ensures ExcludedTags() == old(ExcludedTags()[..i] + ExcludedTags()[i + 1..])
    {
      ghost var before := excluded[..];
      ghost var tags := ExcludedTags();
      var j := i;
      while j < excludedCount - 1
        invariant excludedCount == old(excludedCount) && i <= j < excludedCount
        invariant forall k :: 0 <= k < i ==> excluded[k] == before[k]
        invariant forall k :: i <= k < j ==> excluded[k] == before[k + 1]
        invariant forall k :: j <= k < excluded.Length ==> excluded[k] == before[k]
      {
        excluded[j] := excluded[j + 1];
        j := j + 1;
      }
      excludedCount := excludedCount - 1;
      assert excluded[..excludedCount] == tags[..i] + tags[i + 1..];
      RemovalKeepsStored(tags, i);
    }

    /** wl_log_include_tag: the first matching entry is removed. */
    method IncludeTag(tag: Tag) returns (d: Diagnostic)
      requires Valid()
      modifies this`excludedCount, excluded
      ensures Valid()
      ensures ExcludedTags() == Including(old(ExcludedTags()), tag)
      ensures d == if IsTagExcluded(old(ExcludedTags()), tag) then Silent else TagNotFound
    {
      ghost var tags := ExcludedTags();
      var i := 0;
      while i < excludedCount
        invariant i <= excludedCount
        invariant forall k :: 0 <= k < i ==> !Matches(tags[k], tag)
      {
        if Matches(excluded[i], tag) {
          assert Find(tags, tag) == At(i);
          RemoveExcludedAt(i);
          return Silent;
        }
        i := i + 1;
      }
      assert Find(tags, tag) == Absent;
      return TagNotFound;
    }

    /** wl_log_set_level */
    method SetLevel(tag: Tag, level: Level) returns (d: Diagnostic)
      requires Valid()
      modifies this`levelCount, levels
      ensures Valid()
      ensures LevelTable() == SettingLevel(old(LevelTable()), tag, level)
      ensures d == if Find(TagsOf(old(LevelTable())), tag).Absent? && |old(LevelTable())| >= MaxLogLevelTags
                   then LevelListFull else Silent
    {
      ghost var names := TagsOf(LevelTable());
      SettingLevelBounded(LevelTable(), tag, level);
      var i := 0;
      while i < levelCount
        invariant i <= levelCount
        invariant forall k :: 0 <= k < i ==> !Matches(names[k], tag)
      {
        if Matches(levels[i].tag, tag) {
          assert names[i] == levels[i].tag;
          assert Find(names, tag) == At(i);
          levels[i] := TagLevel(levels[i].tag, level);
          assert LevelTable() == old(LevelTable())[i := TagLevel(old(LevelTable())[i].tag, level)];
          return Silent;
        }
        assert names[i] == levels[i].tag;
        i := i + 1;
      }
      assert Find(names, tag) == Absent;
      if levelCount < MaxLogLevelTags {
        levels[levelCount] := TagLevel(Stored(tag), level);
        levelCount := levelCount + 1;
        assert LevelTable() == old(LevelTable()) + [TagLevel(Stored(tag), level)];
        d := Silent;
      } else {
        d := LevelListFull;
      }
    }

    // -------------------------------------------------------------------------
    // Output

    /** log_output: the text goes to stdout when it is available, otherwise
        byte by byte into the ring buffer. */
    method LogOutput(text: string)
      requires Valid()
      modifies this`output, ring, ring.data
      ensures Valid()
      ensures State() == After(old(State()), text)
    {
      if stdoutAvailable {
        output := output + text;
      } else {
        ring.Enqueue(text);
      }
    }

    /** The filter at the top of every output function. */
    method Filtered(level: Level, tag: Tag) returns (drop: bool)
      requires Valid()
      ensures drop <==> !Allows(LevelTable(), ExcludedTags(), level, tag)
    {
      drop := level.Value() > GetTagLevel(levels[..levelCount], tag).Value()
           || IsTagExcluded(excluded[..excludedCount], tag);
    }

    /** wl_log_print, with the formatted message given: a call the filter lets
        through delivers one line; any other changes nothing at all. */
    method Print(level: Level, tag: Tag, message: string, millis: u32)
      requires Valid()
      modifies this`output, ring, ring.data
      ensures Valid()
      ensures State() == After(old(State()),
                if Allows(LevelTable(), ExcludedTags(), level, tag)
                then PrintLine(useColors, level, tag, message, millis) else "")
      ensures !Allows(LevelTable(), ExcludedTags(), level, tag) ==>
                output == old(output) && unchanged(ring, ring.data)
    {
      DeliveredRoutes(stdoutAvailable, ring.overwrite, ring.size - 1, State(), "");
      var drop := Filtered(level, tag);
      if drop {
        return;
      }
      LogOutput(PrintLine(useColors, level, tag, message, millis));
    }

    /** log_output as the `sent`-th piece of one call's output: the sinks go
        on from where `sent` left them. */
    method Emit(ghost start: Sinks, ghost sent: string, text: string)
      requires Valid() && |start.queued| <= ring.size - 1
      requires State() == After(start, sent)
      modifies this`output, ring, ring.data
      ensures Valid()
      ensures State() == After(start, sent + text)
    {
      AfterCompose(start, sent, text);
      LogOutput(text);
    }

    /** The body of wl_log_buffer_hex once the filter has let the call through:
        the header, one "XX " per byte, then a newline, each by its own
        log_output call. */
    method WriteHex(tag: Tag, bytes: seq<byte>, millis: u32)
      requires Valid()
      modifies this`output, ring, ring.data
      ensures Valid()
      ensures State() == After(old(State()), Join(HexSegments(millis, tag, bytes)))
    {
      ghost var start := State();
      var header := HexHeader(millis, tag);
      DeliveredRoutes(stdoutAvailable, ring.overwrite, ring.size - 1, start, "");
      assert "" + header == header;
      Emit(start, "", header);
      var i := 0;
      ghost var body := "";
      assert header + body == header;
      while i < |bytes|
        invariant Valid() && i <= |bytes|
        invariant body == Join(HexPieces(bytes[..i]))
        invariant State() == After(start, header + body)
      {
        assert bytes[..i + 1] == bytes[..i] + [bytes[i]];
        HexPiecesSnoc(bytes[..i], bytes[i]);
        Emit(start, header + body, HexByte(bytes[i]));
        Regroup(header, body, HexByte(bytes[i]), "");
        body := body + HexByte(bytes[i]);
        i := i + 1;
      }
      assert bytes[..i] == bytes;
      Emit(start, header + body, "\n");
      HexLineShape(millis, tag, bytes);
    }

    /** wl_log_buffer_hex */
    method BufferHex(level: Level, tag: Tag, bytes: seq<byte>, millis: u32)
      requires Valid()
      modifies this`output, ring, ring.data
      ensures Valid()
      ensures State() == After(old(State()),
                if Allows(LevelTable(), ExcludedTags(), level, tag)
                then Join(HexSegments(millis, tag, bytes)) else "")
      ensures !Allows(LevelTable(), ExcludedTags(), level, tag) ==>
                output == old(output) && unchanged(ring, ring.data)
    {
      DeliveredRoutes(stdoutAvailable, ring.overwrite, ring.size - 1, State(), "");
      var drop := Filtered(level, tag);
      if drop {
        return;
      }
      WriteHex(tag, bytes, millis);
    }

    /** The body of wl_log_dump once the filter has let the call through: the
        header, then for each byte an offset label when its index is a multiple
        of 16 and its "XX ", then a newline, each by its own log_output call. */
    method WriteDump(tag: Tag, bytes: seq<byte>, millis: u32)
      requires Valid()
      modifies this`output, ring, ring.data
      ensures Valid()
      ensures State() == After(old(State()), Join(DumpSegments(millis, tag, bytes)))
    {
      ghost var start := State();
      var header := DumpHeader(millis, tag);
      DeliveredRoutes(stdoutAvailable, ring.overwrite, ring.size - 1, start, "");
      assert "" + header == header;
      Emit(start, "", header);
      var i := 0;
      ghost var body := "";
      assert header + body == header;
      while i < |bytes|
        invariant Valid() && i <= |bytes|
        invariant body == Join(DumpPieces(bytes[..i], DumpStart))
        invariant State() == After(start, header + body)
      {
        DumpPrefixStep(bytes, i);
        WriteDumpByte(start, header + body, i, bytes[i]);
        Regroup(header, body, Join(DumpPiece(i, bytes[i])), "");
        body := body + Join(DumpPiece(i, bytes[i]));
        i := i + 1;
      }
      assert bytes[..i] == bytes;
      Emit(start, header + body, "\n");
      DumpText(millis, tag, bytes);
    }

    /** One pass of the dump loop: the offset label when `index` starts a row,
        then the byte's "XX ". */
    method WriteDumpByte(ghost start: Sinks, ghost sent: string, index: nat, b: byte)
      requires Valid() && |start.queued| <= ring.size - 1
      requires State() == After(start, sent)
      modifies this`output, ring, ring.data
      ensures Valid()
      ensures State() == After(start, sent + Join(DumpPiece(index, b)))
    {
      DumpPieceText(index, b);
      if index % DumpRowLength == 0 {
        Emit(start, sent, OffsetLabel(index));
        Emit(start, sent + OffsetLabel(index), HexByte(b));
        Regroup(sent, OffsetLabel(index), HexByte(b), "");
      } else {
        Emit(start, sent, HexByte(b));
      }
    }

    /** wl_log_dump */
    method Dump(level: Level, tag: Tag, bytes: seq<byte>, millis: u32)
      requires Valid()
      modifies this`output, ring, ring.data
      ensures Valid()
      ensures State() == After(old(State()),
                if Allows(LevelTable(), ExcludedTags(), level, tag)
                then Join(DumpSegments(millis, tag, bytes)) else "")
      ensures !Allows(LevelTable(), ExcludedTags(), level, tag) ==>
                output == old(output) && unchanged(ring, ring.data)
    {
      DeliveredRoutes(stdoutAvailable, ring.overwrite, ring.size - 1, State(), "");
      var drop := Filtered(level, tag);
      if drop {
        return;
      }
      WriteDump(tag, bytes, millis);
    }

    /** wl_log_process_buffer: the queued bytes are taken out oldest first and
        handed to the caller, which stands for the drain's sink. */
    method ProcessBuffer() returns (drained: string)
      requires Valid()
      modifies ring`tail
      ensures Valid()
      ensures drained == old(ring.Contents())
      ensures ring.Contents() == []
    {
      drained := ring.Drain();
    }

    // -------------------------------------------------------------------------
    // The level macros of include/wl_log.h

    /** WL_LOGE */
    method LogE(tag: Tag, message: string, millis: u32)
      requires Valid()
      modifies this`output, ring, ring.data
      ensures Valid()
      ensures State() == After(old(State()),
                if Allows(LevelTable(), ExcludedTags(), Error, tag)
                then PrintLine(useColors, Error, tag, message, millis) else "")
      ensures !Allows(LevelTable(), ExcludedTags(), Error, tag) ==>
                output == old(output) && unchanged(ring, ring.data)
    {
      Print(Error, tag, message, millis);
    }

    /** WL_LOGW */
    method LogW(tag: Tag, message: string, millis: u32)
      requires Valid()
      modifies this`output, ring, ring.data
      ensures Valid()
      ensures State() == After(old(State()),
                if Allows(LevelTable(), ExcludedTags(), Warn, tag)
                then PrintLine(useColors, Warn, tag, message, millis) else "")
      ensures !Allows(LevelTable(), ExcludedTags(), Warn, tag) ==>
                output == old(output) && unchanged(ring, ring.data)
    {
      Print(Warn, tag, message, millis);
    }

    /** WL_LOGI */
    method LogI(tag: Tag, message: string, millis: u32)
      requires Valid()
      modifies this`output, ring, ring.data
      ensures Valid()
      ensures State() == After(old(State()),
                if Allows(LevelTable(), ExcludedTags(), Info, tag)
                then PrintLine(useColors, Info, tag, message, millis) else "")
      ensures !Allows(LevelTable(), ExcludedTags(), Info, tag) ==>
                output == old(output) && unchanged(ring, ring.data)
    {
      Print(Info, tag, message, millis);
    }

    /** WL_LOGD */
    method LogD(tag: Tag, message: string, millis: u32)
      requires Valid()
      modifies this`output, ring, ring.data
      ensures Valid()
      ensures State() == After(old(State()),
                if Allows(LevelTable(), ExcludedTags(), Debug, tag)
                then PrintLine(useColors, Debug, tag, message, millis) else "")
      ensures !Allows(LevelTable(), ExcludedTags(), Debug, tag) ==>
                output == old(output) && unchanged(ring, ring.data)
    {
      Print(Debug, tag, message, millis);
    }

    /** WL_LOGV */
    method LogV(tag: Tag, message: string, millis: u32)
      requires Valid()
      modifies this`output, ring, ring.data
      ensures Valid()
      ensures State() == After(old(State()),
                if Allows(LevelTable(), ExcludedTags(), Verbose, tag)
                then PrintLine(useColors, Verbose, tag, message, millis) else "")
      ensures !Allows(LevelTable(), ExcludedTags(), Verbose, tag) ==>
                output == old(output) && unchanged(ring, ring.data)
    {
      Print(Verbose, tag, message, millis);
    }
  }

  /** wl_log_init in a build with no switch defined, on a target with stdout:
      colours on, output to stdout, drop-newest, and a ring of
      WL_LOG_BUFFER_SIZE = 1024 bytes; both tables are empty and the caller may
      edit them at once. */
  method NewDefaultLogger() returns (l: Logger)
    ensures fresh(l) && fresh(l.ring) && fresh(l.ring.data) && fresh(l.excluded) && fresh(l.levels)
    ensures l.Valid() && l.useColors && l.stdoutAvailable
    ensures !l.ring.overwrite && l.ring.size == DefaultBufferSize
    ensures l.ExcludedTags() == [] && l.LevelTable() == [] && l.State() == Sinks("", [])
  {
    l := new Logger(DefaultConfig);
  }

  /** A session on a fresh default logger: while "network" is excluded an INFO
      line under it prints nothing; once it is included again the next INFO
      line is all the console holds. */
  method NetworkSession(millis: u32) returns (l: Logger)
    ensures fresh(l) && l.Valid()
    ensures l.ExcludedTags() == []
    ensures l.output == PrintLine(true, Info, "network", "Network tag is now available to show messages", millis)
  {
    l := NewDefaultLogger();
    StoredIsShort("network");
    var d := l.ExcludeTag("network");
    assert l.ExcludedTags() == ["network"];
    assert Matches(l.ExcludedTags()[0], "network");
    assert !Allows(l.LevelTable(), l.ExcludedTags(), Info, "network");
    l.LogI("network", "Hello, this message will not shown", millis);
    assert l.output == "";
    d := l.IncludeTag("network");
    assert l.ExcludedTags() == [] && l.LevelTable() == [];
    assert Allows(l.LevelTable(), l.ExcludedTags(), Info, "network");
    var line := PrintLine(true, Info, "network", "Network tag is now available to show messages", millis);
    DeliveredRoutes(true, false, l.ring.size - 1, l.State(), line);
    l.LogI("network", "Network tag is now available to show messages", millis);
  }
}

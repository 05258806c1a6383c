/**
  * The console logger (src/logger.ts): every message is split into lines,
  * a blank final line is dropped, and each remaining line is right-trimmed
  * and tagged with the logger's prefix and the level's name.
  */
module Logger {

  import opened Wrappers
  import opened Strings

  /** The line separator; `os.EOL` is fixed to a line feed. */
  const EOL: string := "\n"

  /** The prefix of a logger created without options. */
  const DefaultPrefix: string := "[mono]"

  datatype Level = Error | Log | Warn

  /** `levelPrefixes`: the level's name as it appears in each line. */
  function LevelPrefix(level: Level): string
  {
    match level
    case Error => "error"
    case Log => "info"
    case Warn => "warn"
  }

  /** The filter step: only the last piece may go, and only when it trims to nothing. */
  function Kept(pieces: seq<string>): (r: seq<string>)
    ensures |pieces| > 0 && IsBlank(pieces[|pieces| - 1]) ==> r == pieces[..|pieces| - 1]
    ensures !(|pieces| > 0 && IsBlank(pieces[|pieces| - 1])) ==> r == pieces
  {
    if |pieces| > 0 then
      var lastBlank := |Trim(pieces[|pieces| - 1])| == 0;
      TrimEmptyIffBlank(pieces[|pieces| - 1]);
      KeptByIndexDrops(pieces, 0, lastBlank);
      KeptByIndex(pieces, 0, lastBlank)
    else []
  }

  /**
    * The filter callback, applied from index `i` to the end; `lastBlank` is
    * whether the final piece trims to nothing, the only piece the callback
    * trims.
    */
  function KeptByIndex(pieces: seq<string>, i: nat, lastBlank: bool): seq<string>
    requires i <= |pieces|
    decreases |pieces| - i
  {
    if i == |pieces| then []
    else if i == |pieces| - 1 && lastBlank then []
    else [pieces[i]] + KeptByIndex(pieces, i + 1, lastBlank)
  }

  /** One output line: prefix, level and the piece without its trailing whitespace. */
  function FormatLine(prefix: string, level: string, piece: string): string
  {
    prefix + " " + level + ": " + TrimRight(piece)
  }

  /** The map step over the kept pieces. */
  function PrefixLines(prefix: string, level: string, pieces: seq<string>): (r: seq<string>)
    ensures |r| == |pieces|
    ensures forall k :: 0 <= k < |r| ==> r[k] == FormatLine(prefix, level, pieces[k])
  {
    seq(|pieces|, k requires 0 <= k < |pieces| => FormatLine(prefix, level, pieces[k]))
  }

  /** `format(prefix, level, message)`. */
  function Format(prefix: string, level: string, message: string): string
  {
    Join(PrefixLines(prefix, level, Kept(Split(message, '\n'))), EOL)
  }

  /** At most one piece is dropped, and only a blank final one. */
  lemma KeptDropsAtMostLast(pieces: seq<string>)
    ensures Kept(pieces) <= pieces
    ensures |Kept(pieces)| == |pieces| || (|Kept(pieces)| == |pieces| - 1 && IsBlank(pieces[|pieces| - 1]))
  {
  }

  /** The drop of the final piece happens exactly when it is blank. */
  lemma {:induction false} KeptByIndexDrops(pieces: seq<string>, i: nat, lastBlank: bool)
    requires i < |pieces|
    ensures lastBlank ==> KeptByIndex(pieces, i, lastBlank) == pieces[i..|pieces| - 1]
    ensures !lastBlank ==> KeptByIndex(pieces, i, lastBlank) == pieces[i..]
    decreases |pieces| - i
  {
    var n := |pieces|;
    if i < n - 1 {
      KeptByIndexDrops(pieces, i + 1, lastBlank);
      if lastBlank {
        assert pieces[i..n - 1] == [pieces[i]] + pieces[i + 1..n - 1];
      } else {
        assert pieces[i..] == [pieces[i]] + pieces[i + 1..];
      }
    } else if !lastBlank {
      assert KeptByIndex(pieces, i + 1, lastBlank) == [];
      assert pieces[i..] == [pieces[i]];
    }
  }

  /**
    * When neither the prefix nor the level holds a line break, the lines of
    * the output are exactly the tagged kept pieces: one per kept piece, in order.
    */
  lemma OutputLines(prefix: string, level: string, message: string)
    requires '\n' !in prefix && '\n' !in level
    requires |Kept(Split(message, '\n'))| > 0
    ensures Split(Format(prefix, level, message), '\n') == PrefixLines(prefix, level, Kept(Split(message, '\n')))
  {
    var pieces := Split(message, '\n');
    var kept := Kept(pieces);
    var lines := PrefixLines(prefix, level, kept);
    forall k | 0 <= k < |lines| ensures '\n' !in lines[k] {
      assert kept[k] in pieces;
      LineHasNoBreak(prefix, level, kept[k]);
    }
    SplitJoin(lines, '\n');
  }

  /** A tagged line holds no line break when its parts hold none. */
  lemma LineHasNoBreak(prefix: string, level: string, piece: string)
    requires '\n' !in prefix && '\n' !in level && '\n' !in piece
    ensures '\n' !in FormatLine(prefix, level, piece)
  {
    var t := TrimRight(piece);
    assert forall j :: 0 <= j < |t| ==> t[j] == piece[j];
    assert '\n' !in t;
  }

  /** The output has as many lines as the message has pieces, or one fewer. */
  lemma LineCount(prefix: string, level: string, message: string)
    requires '\n' !in prefix && '\n' !in level
    requires |Kept(Split(message, '\n'))| > 0
    ensures var n := |Split(Format(prefix, level, message), '\n')|;
            n == |Split(message, '\n')| || n == |Split(message, '\n')| - 1
  {
    OutputLines(prefix, level, message);
  }

  /**
    * A blank message without a line break formats to the empty string: its
    * single piece is dropped. The console call is still made, so it prints
    * one empty, untagged line.
    */
  lemma BlankMessage(prefix: string, level: string, message: string)
    requires IsBlank(message) && '\n' !in message
    ensures Format(prefix, level, message) == ""
  {
    var pieces := Split(message, '\n');
    assert |pieces| == 1 && pieces[0] == message;
  }

  /**
    * Nothing is kept exactly for the messages `BlankMessage` covers; every
    * other message meets the requires of `OutputLines` and `EveryLineTagged`.
    */
  lemma NothingKeptIffBlank(message: string)
    ensures |Kept(Split(message, '\n'))| == 0 <==> IsBlank(message) && '\n' !in message
  {
    var pieces := Split(message, '\n');
    if |pieces| > 1 {
      assert message[|pieces[0]|] == '\n';
    } else {
      assert pieces[0] == message;
    }
  }

  /** Every piece before the last is kept, blank or not, and gets its own line. */
  lemma InteriorPiecesKept(pieces: seq<string>, k: nat)
    requires k < |pieces| - 1
    ensures k < |Kept(pieces)| && Kept(pieces)[k] == pieces[k]
  {
  }

  /**
    * Right-trimming never touches the start of a piece: everything up to its
    * last non-whitespace character, leading whitespace included, survives.
    */
  lemma {:induction false} LeadingWhitespaceKept(piece: string, j: nat)
    requires j < |piece| && !IsWhitespace(piece[j])
    ensures piece[..j + 1] <= TrimRight(piece)
    decreases |piece|
  {
    if IsWhitespace(piece[|piece| - 1]) {
      var shorter := piece[..|piece| - 1];
      assert shorter[j] == piece[j];
      LeadingWhitespaceKept(shorter, j);
      assert shorter[..j + 1] == piece[..j + 1];
    }
  }

  /** Where a console call writes. */
  datatype Stream = Stdout | Stderr

  /** One call of `console.error`, `console.log` or `console.warn`. */
  datatype ConsoleWrite = ConsoleWrite(stream: Stream, text: string)

  /** The value `createConsoleLogger` returns; all it holds is its prefix. */
  datatype ConsoleLogger = ConsoleLogger(prefix: string)

  /** `createConsoleLogger(options)`: the options' prefix, or the default when none are given. */
  function CreateConsoleLogger(prefix: Option<string>): (l: ConsoleLogger)
    ensures prefix.None? ==> l.prefix == DefaultPrefix
    ensures prefix.Some? ==> l.prefix == prefix.value
  {
    match prefix
    case None => ConsoleLogger(DefaultPrefix)
    case Some(p) => ConsoleLogger(p)
  }

  /** The console method behind each level: `console.log` writes to stdout, the others to stderr. */
  function StreamOf(level: Level): Stream
  {
    if level == Log then Stdout else Stderr
  }

  /** One call of the logger's `error`, `log` or `warn`: a single write of the formatted message. */
  function Emit(logger: ConsoleLogger, level: Level, message: string): (w: ConsoleWrite)
    ensures w.stream == Stdout <==> level == Log
    ensures w.text == Format(logger.prefix, LevelPrefix(level), message)
  {
    ConsoleWrite(StreamOf(level), Format(logger.prefix, LevelPrefix(level), message))
  }

  /**
    * Every printed line starts with the logger's prefix, a space and the
    * level's name followed by a colon and a space.
    */
  lemma {:induction false} EveryLineTagged(logger: ConsoleLogger, level: Level, message: string)
    requires '\n' !in logger.prefix
    requires |Kept(Split(message, '\n'))| > 0
    ensures var tag := logger.prefix + " " + LevelPrefix(level) + ": ";
            forall line :: line in Split(Emit(logger, level, message).text, '\n') ==> tag <= line
  {
    OutputLines(logger.prefix, LevelPrefix(level), message);
    AllTagged(logger.prefix, LevelPrefix(level), Kept(Split(message, '\n')));
  }

  /** Every line the map step produces carries the tag. */
  lemma AllTagged(prefix: string, level: string, pieces: seq<string>)
    ensures forall line :: line in PrefixLines(prefix, level, pieces) ==> prefix + " " + level + ": " <= line
  {
    var lines := PrefixLines(prefix, level, pieces);
    forall line | line in lines ensures prefix + " " + level + ": " <= line {
      var k :| 0 <= k < |lines| && lines[k] == line;
      LineTagged(prefix, level, pieces[k]);
    }
  }

  /** A tagged line starts with its prefix, a space, the level and a colon and a space. */
  lemma LineTagged(prefix: string, level: string, piece: string)
    ensures prefix + " " + level + ": " <= FormatLine(prefix, level, piece)
  {
    var tag := prefix + " " + level + ": ";
    assert FormatLine(prefix, level, piece) == tag + TrimRight(piece);
  }
}

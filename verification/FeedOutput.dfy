/** From the bytes given to a feed to the events that come out: how the bytes were chopped
    matters neither for the events nor, under an exact condition, for their order. */
module FeedOutput {
  import DataBuf
  import opened Common
  import opened EventTable
  import opened EventLog
  import opened EventRuns
  import opened EventTheorems
  import opened EventOrder
  import opened EventOutput
  import opened EventPacing
  import opened EventParser

  function Parsed(parse: string -> Line, ls: seq<string>): (r: seq<Line>)
    ensures |r| == |ls|
  {
    seq(|ls|, i requires 0 <= i < |ls| => parse(ls[i]))
  }

  lemma ParsedSum(parse: string -> Line, a: seq<string>, b: seq<string>)
    ensures Feeds(Parsed(parse, a + b)) == Feeds(Parsed(parse, a)) + Feeds(Parsed(parse, b))
  {
  }

  lemma ParsedOneMore(parse: string -> Line, a: seq<string>, l: string)
    ensures Parsed(parse, a + [l]) == Parsed(parse, a) + [parse(l)]
  {
  }

  /** A feed: a buffer for the bytes, and a parser for the lines read from it. `parse` finds
      the identity and the type of a line. */
  class Feed {
    const parse: string -> Line
    const buffer: DataBuf.Buffer
    const parser: Parser

    /** Between calls every complete line has been read and taken in, and the run is settled
        and at rest. */
    ghost predicate Valid()
      reads this, buffer, buffer.data, parser, parser.slots
    {
      && buffer.Valid() && buffer.Following() && !buffer.preserveHead && '\n' !in buffer.Window()
      && parser.Valid() && parser.pace == Resting && parser.atEnd.NoDataYet? && parser.pending == []
    }

    /** The parser has taken in the lines read from the buffer, and nothing else. */
    ghost predicate Plain()
      reads buffer, parser
    {
      parser.inputs == Feeds(Parsed(parse, buffer.taken))
    }

    /** The parser has taken in the lines read from the buffer and then the end of the input,
        and holds nothing any more. */
    ghost predicate Flushed()
      reads buffer, parser, parser.slots
    {
      parser.inputs == Feeds(Parsed(parse, buffer.taken)) + [Finish] && NothingHeld(parser.Snapshot())
    }

    constructor (parse: string -> Line)
      ensures Valid() && Plain() && fresh(buffer) && fresh(buffer.data) && fresh(parser) && fresh(parser.slots)
      ensures this.parse == parse && buffer.given == [] && parser.emitted == []
    {
      this.parse := parse;
      buffer := new DataBuf.Buffer(0, false);
      parser := new Parser([], NoDataYet);
    }

    /** Reads the lines that are complete. */
    method ReadLines() returns (lines: seq<Line>, ghost ls: seq<string>)
      requires buffer.Valid() && buffer.Following()
      modifies buffer`offset, buffer`len, buffer`consumed, buffer`ops, buffer`taken
      ensures buffer.Valid() && buffer.Following() && '\n' !in buffer.Window()
      ensures buffer.given == old(buffer.given) && buffer.taken == old(buffer.taken) + ls
      ensures lines == Parsed(parse, ls)
    {
      lines, ls := [], [];
      ghost var before := buffer.taken;
      var more := true;
      while more
        invariant buffer.Valid() && buffer.Following() && buffer.given == old(buffer.given)
        invariant buffer.taken == before + ls && lines == Parsed(parse, ls)
        invariant more || '\n' !in buffer.Window()
        decreases more, buffer.len
      {
        var rc, line := buffer.ReadLine();
        more := rc == 1;
        if more {
          Associate(before, ls, [line]);
          ParsedOneMore(parse, ls, line);
          lines, ls := lines + [parse(line)], ls + [line];
        }
      }
    }

    /** Takes in a chunk of bytes and hands out every event that can be handed out then. */
    method Give(chunk: string) returns (out: seq<EventList>)
      requires Valid()
      modifies buffer, buffer.data, parser, parser.slots
      ensures Valid() && (buffer.data == old(buffer.data) || fresh(buffer.data))
      ensures parser.slots == old(parser.slots) || fresh(parser.slots)
      ensures buffer.given == old(buffer.given) + chunk && parser.emitted == old(parser.emitted) + out
      ensures old(Plain()) ==> Plain()
    {
      var _, _ := buffer.Append(chunk);
      ghost var before := buffer.taken;
      ghost var ls;
      parser.pending, ls := ReadLines();
      ParsedSum(parse, before, ls);
      out := parser.ConsumeFeed(false);
    }

    /** Ends the input and hands out everything. */
    method Flush() returns (out: seq<EventList>)
      requires Valid()
      modifies parser, parser.slots
      ensures Valid() && (parser.slots == old(parser.slots) || fresh(parser.slots))
      ensures parser.emitted == old(parser.emitted) + out && NothingHeld(parser.Snapshot())
      ensures old(Plain()) ==> Flushed()
    {
      out := parser.ConsumeFeed(true);
    }
  }

  lemma FlushedRun(f: Feed)
    requires f.Valid() && f.Flushed()
    ensures ParserRun(f.parser.steps, f.parser.inputs)
    ensures Exec(f.parser.steps).emitted == f.parser.emitted
  {
    var p := f.parser;
    RecordedMeans(p.steps, p.inputs, p.pace, Run(p.Snapshot(), p.lines, p.emitted));
  }

  /** Two flushed feeds of the same bytes, in any chunks, have taken in the same and handed
      out the same events; and in the same order if what they took in is steady, which is
      exactly when every run of the parser on it has that order. */
  lemma ChunksDoNotMatter(a: Feed, b: Feed)
    requires a.Valid() && b.Valid() && a.Flushed() && b.Flushed()
    requires a.parse == b.parse && a.buffer.given == b.buffer.given
    ensures a.parser.inputs == b.parser.inputs
    ensures forall l :: l in a.parser.emitted <==> l in b.parser.emitted
    ensures DistinctStamps(LogOf(a.parser.inputs)) && Steady(a.parser.inputs) ==> a.parser.emitted == b.parser.emitted
  {
    DataBuf.BuffersAgree(a.buffer, b.buffer);
    FlushedRun(a);
    FlushedRun(b);
    DrainsDoNotChangeGrouping(a.parser.steps, b.parser.steps);
    OutputIsFinished(Exec(a.parser.steps));
    OutputIsFinished(Exec(b.parser.steps));
    if DistinctStamps(LogOf(a.parser.inputs)) && Steady(a.parser.inputs) {
      SteadyFixesOrder(a.parser.steps, b.parser.steps, a.parser.inputs);
    }
  }
}

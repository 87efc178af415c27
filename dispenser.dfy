/**
 * The ticket dispenser object: the counter table it holds in memory and the
 * counter file it reads at start-up and rewrites after every ticket.
 *
 * The file system is reduced to the one counter file, `None` when it does not
 * exist; whether opening it fails is given by the caller (`readFails`,
 * `writeFails`), since it depends on the machine.
 */
module Dispenser {
  import opened Wrappers
  import opened PyText
  import opened CounterFile
  import opened Tickets

  /**
   * The counters after start-up from table `t`: a missing or unreadable file
   * leaves them as they are; otherwise the file's lines are applied, up to the
   * first line whose unpack fails.
   */
  function LoadedCounters(t: Table, file: Option<string>, readFails: bool): Table {
    if file.None? || readFails then t else ApplyLines(t, ReadLines(file.value)).table
  }

  /** The file after start-up: a missing file is created with all counts at 0, unless that fails. */
  function CreatedFile(file: Option<string>, writeFails: bool): Option<string> {
    if file.None? && !writeFails then Some(DefaultText) else file
  }

  /**
   * A dispenser started on a file that a previous one saved, and that can be
   * read, starts with the counters the previous one saved.
   */
  lemma RestartRestoresCounters(t: Table)
    ensures LoadedCounters(Zero, Some(Serialize(t)), false) == t
  {
    SerializeRoundTrip(Zero, t);
  }

  /**
   * A dispenser that found no file, and created it, leaves a file from which
   * the next start-up reads all counts as 0.
   */
  lemma RestartAfterCreation()
    ensures LoadedCounters(Zero, CreatedFile(None, false), false) == Zero
  {
    DefaultTextReadsZero(Zero);
  }

  class TicketDispenser {
    /** The count of tickets issued so far for each operation code. */
    var counters: Table
    /** The counter file's content, `None` when it does not exist. */
    var file: Option<string>

    /** A new dispenser starts from all counts at 0, then loads the counter file. */
    constructor (existing: Option<string>, readFails: bool, writeFails: bool)
      ensures counters == LoadedCounters(Zero, existing, readFails)
      ensures file == CreatedFile(existing, writeFails)
    {
      counters := Zero;
      file := existing;
      new;
      Load(readFails, writeFails);
    }

    /**
     * Start-up: create a missing file with all counts at 0, or read the file
     * line by line. A failure to open the file, or a line whose unpack fails,
     * is caught and reported, and the counters read so far are kept.
     */
    method Load(readFails: bool, writeFails: bool)
      modifies this
      ensures counters == LoadedCounters(old(counters), old(file), readFails)
      ensures file == CreatedFile(old(file), writeFails)
    {
      if file.None? {
        if !writeFails {
          file := Some(DefaultText);
        }
        return;
      }
      if readFails {
        return;
      }
      var lines := ReadLines(file.value);
      var i := 0;
      while i < |lines|
        invariant 0 <= i <= |lines|
        invariant file == old(file)
        invariant ApplyLines(old(counters), lines) == ApplyLines(counters, lines[i..])
      {
        var line := lines[i];
        if ':' in line {
          var parts := Split(Strip(line), ':');
          if |parts| != 2 {
            // The two-value unpack raises; the handler keeps what was read.
            break;
          }
          var key, count := parts[0], parts[1];
          if key in counters {
            match ParseInt(count)
            case Some(n) => counters := counters[key := n];
            case None => counters := counters[key := 0];
          }
        }
        assert lines[i..][1..] == lines[i + 1..];
        i := i + 1;
      }
    }

    /**
     * Rewrites the file with one `code:count` line per code, in the table's
     * order; a failure to open the file is caught and leaves it as it was.
     */
    method Save(writeFails: bool)
      modifies this`file
      ensures file == if writeFails then old(file) else Some(Serialize(counters))
    {
      if writeFails {
        return;
      }
      file := Some("");
      for i := 0 to |Order|
        invariant file == Some(SerializeCodes(counters, Order[..i]))
      {
        assert Order[..i + 1][..i] == Order[..i];
        file := Some(file.value + EntryText(counters, Order[i]) + "\n");
      }
      assert Order[..|Order|] == Order;
    }

    /**
     * A request for `operation`: the counter of its code goes up by one, the
     * file is rewritten, and the ticket and the number of people waiting ahead
     * are returned. An unknown name changes nothing.
     */
    method Issue(operation: string, writeFails: bool) returns (r: IssueResult)
      modifies this
      ensures (counters, r) == IssueStep(old(counters), operation)
      ensures file == if r.UnknownOperation? || writeFails then old(file) else Some(Serialize(counters))
    {
      var code := OperationCode(operation);
      if code.None? {
        return UnknownOperation;
      }
      var c := code.value;
      counters := counters[c := counters[c] + 1];
      var ticket := TicketNumber(c, counters[c]);
      Save(writeFails);
      r := Issued(ticket, counters[c] - 1);
    }
  }
}

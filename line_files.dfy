/** Text files as the `.qdat` reader and writer see them: a sequence of lines, each
    as `readline()` returns it (with its trailing newline), read one at a time from a
    current position, or written one at a time. */
module LineFiles {
  import opened Text

  /** The line `readline()` returns at position `p`: the empty string past the end. */
  function LineAt(lines: seq<string>, p: nat): string {
    if p < |lines| then lines[p] else ""
  }

  /** The position after a `readline()` at `p`: reading at the end stays at the end. */
  function NextPos(lines: seq<string>, p: nat): nat {
    if p < |lines| then p + 1 else p
  }

  /** A file object open for reading. */
  class LineReader {
    const lines: seq<string>
    var pos: nat

    ghost predicate Valid()
      reads this
    {
      pos <= |lines|
    }

    constructor (lines: seq<string>)
      ensures this.lines == lines && pos == 0 && Valid()
    {
      this.lines := lines;
      pos := 0;
    }

    /** `inFile.readline()`. */
    method ReadLine() returns (line: string)
      requires Valid()
      modifies this
      ensures Valid()
      ensures line == LineAt(lines, old(pos))
      ensures pos == NextPos(lines, old(pos))
    {
      if pos < |lines| {
        line := lines[pos];
        pos := pos + 1;
      } else {
        line := "";
      }
    }
  }

  /** A file object open for writing. */
  class LineWriter {
    var written: seq<string>

    constructor ()
      ensures written == []
    {
      written := [];
    }

    /** `outFile.write(s)`, one line at a time. */
    method Write(s: string)
      modifies this
      ensures written == old(written) + [s]
    {
      written := written + [s];
    }
  }

  /** Where `fileutils.MoveToMatchingLine(inFile, pat)` leaves the file: just after the
      first line from `pos` on that contains `pat`, or at the end if there is none. */
  function AfterMatch(lines: seq<string>, pos: nat, pat: string): (p: nat)
    requires pos <= |lines|
    ensures pos <= p <= |lines|
    ensures forall k :: pos <= k < p - 1 ==> !Contains(lines[k], pat)
    ensures (p > pos && Contains(lines[p - 1], pat))
         || (p == |lines| && forall k :: pos <= k < p ==> !Contains(lines[k], pat))
    decreases |lines| - pos
  {
    if pos == |lines| then pos
    else if Contains(lines[pos], pat) then pos + 1
    else AfterMatch(lines, pos + 1, pat)
  }

  /** A line that lacks the pattern is read past. */
  lemma AfterMatchSkip(lines: seq<string>, pos: nat, pat: string)
    requires pos < |lines| && !Contains(lines[pos], pat)
    ensures AfterMatch(lines, pos, pat) == AfterMatch(lines, pos + 1, pat)
  {
  }

  /** The first line that has the pattern is the last one read. */
  lemma AfterMatchHit(lines: seq<string>, pos: nat, pat: string)
    requires pos < |lines| && Contains(lines[pos], pat)
    ensures AfterMatch(lines, pos, pat) == pos + 1
  {
  }

  /** `fileutils.MoveToMatchingLine(inFile, pat)`: reads lines up to and including the
      first one that contains `pat`. */
  method MoveToMatchingLine(f: LineReader, pat: string)
    requires f.Valid()
    modifies f
    ensures f.Valid() && f.pos == AfterMatch(f.lines, old(f.pos), pat)
  {
    while f.pos < |f.lines|
      invariant f.Valid()
      invariant AfterMatch(f.lines, old(f.pos), pat) == AfterMatch(f.lines, f.pos, pat)
      decreases |f.lines| - f.pos
    {
      var line := f.ReadLine();
      if Contains(line, pat) {
        return;
      }
    }
  }
}

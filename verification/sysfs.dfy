/** The device files of the thinkpad hwmon directory, as pure data. A read sees
    what the file holds (or the I/O error opening or reading it raises); a write
    is a (path, text) pair, and a sequence of writes is applied in order. */
module Sysfs {
  import opened Wrappers
  import opened Errors
  import opened Decimal

  /** The files under the hwmon directory that the tool touches. */
  datatype Path =
    | TempInput(channel: nat)   // temp{channel}_input, channels numbered from 1
    | FanInput                  // fan1_input
    | PwmEnable                 // pwm1_enable
    | Pwm                       // pwm1
    | FanWatchdog               // device/driver/fan_watchdog

  /** What reading a file yields: its text, or the I/O error that opening or
      reading it raises. */
  datatype FileState = Unreadable(kind: IoKind) | Contents(text: string)

  type Files = map<Path, FileState>

  /** A file that is not there cannot be opened. */
  function Lookup(files: Files, p: Path): FileState
  {
    if p in files then files[p] else Unreadable(NotFound)
  }

  datatype FileWrite = FileWrite(path: Path, text: string)

  /** The files after `writes` have all succeeded, in order: the last write to a
      path decides what it reads back. */
  function ApplyWrites(files: Files, writes: seq<FileWrite>): Files
    decreases |writes|
  {
    if |writes| == 0 then files
    else ApplyWrites(files[writes[0].path := Contents(writes[0].text)], writes[1..])
  }

  /** Only written paths change. */
  lemma {:induction false} ApplyWritesFrame(files: Files, writes: seq<FileWrite>, p: Path)
    requires forall i :: 0 <= i < |writes| ==> writes[i].path != p
    ensures Lookup(ApplyWrites(files, writes), p) == Lookup(files, p)
    decreases |writes|
  {
    if |writes| > 0 {
      ApplyWritesFrame(files[writes[0].path := Contents(writes[0].text)], writes[1..], p);
    }
  }

  /** A path written by the last write of `writes` reads back that write's text. */
  lemma {:induction false} ApplyWritesLast(files: Files, writes: seq<FileWrite>)
    requires |writes| > 0
    ensures Lookup(ApplyWrites(files, writes), writes[|writes| - 1].path)
            == Contents(writes[|writes| - 1].text)
    decreases |writes|
  {
    var next := files[writes[0].path := Contents(writes[0].text)];
    if |writes| > 1 {
      ApplyWritesLast(next, writes[1..]);
    } else {
      assert ApplyWrites(next, writes[1..]) == next;
    }
  }

  /** Applying writes one batch after another is applying their concatenation. */
  lemma {:induction false} ApplyWritesAppend(files: Files, a: seq<FileWrite>, b: seq<FileWrite>)
    ensures ApplyWrites(files, a + b) == ApplyWrites(ApplyWrites(files, a), b)
    decreases |a|
  {
    if |a| > 0 {
      assert (a + b)[1..] == a[1..] + b;
      ApplyWritesAppend(files[a[0].path := Contents(a[0].text)], a[1..], b);
    } else {
      assert a + b == b;
    }
  }

  /** How one `File::create` plus `write!` turns out: it succeeds, opening the
      file fails, or the write after a successful open fails. */
  datatype WriteAttempt = Succeeds | CreateFails(createKind: IoKind) | WriteFails(writeKind: IoKind)

  function AttemptError(a: WriteAttempt): Error
    requires !a.Succeeds?
  {
    match a
    case CreateFails(k) => Io(k)
    case WriteFails(k) => Io(k)
  }

  /** Performs `writes` in order, each with the matching outcome in `attempts`,
      stopping at the first failure with its I/O error (the `?` after each
      `File::create` and `write!`). A failed attempt leaves its file unchanged. */
  function ExecuteWrites(files: Files, writes: seq<FileWrite>, attempts: seq<WriteAttempt>)
    : (r: (Files, Result<(), Error>))
    requires |attempts| == |writes|
    ensures r.1.Ok? <==> forall i :: 0 <= i < |attempts| ==> attempts[i].Succeeds?
    ensures r.1.Ok? ==> r.0 == ApplyWrites(files, writes)
    ensures r.1.Err? ==>
              exists k :: 0 <= k < |attempts| && FailsFirstAt(attempts, k)
                          && r.0 == ApplyWrites(files, writes[..k])
                          && r.1.error == AttemptError(attempts[k])
    decreases |writes|
  {
    if |writes| == 0 then (files, Ok(()))
    else if !attempts[0].Succeeds? then
      assert writes[..0] == [];
      assert FailsFirstAt(attempts, 0);
      (files, Err(AttemptError(attempts[0])))
    else
      var next := files[writes[0].path := Contents(writes[0].text)];
      var rest := ExecuteWrites(next, writes[1..], attempts[1..]);
      if rest.1.Ok? then
        assert forall i :: 1 <= i < |attempts| ==> attempts[i] == attempts[1..][i - 1];
        rest
      else
        var k :| 0 <= k < |attempts[1..]| && FailsFirstAt(attempts[1..], k)
                 && rest.0 == ApplyWrites(next, writes[1..][..k])
                 && rest.1.error == AttemptError(attempts[1..][k]);
        assert writes[..k + 1][1..] == writes[1..][..k];
        assert FailsFirstAt(attempts, k + 1);
        rest
  }

  /** `attempts[k]` is the first attempt that does not succeed. */
  predicate FailsFirstAt(attempts: seq<WriteAttempt>, k: nat)
  {
    && k < |attempts|
    && !attempts[k].Succeeds?
    && forall i :: 0 <= i < k ==> attempts[i].Succeeds?
  }

  /** The first line of a file as `BufRead::lines` yields it: the text up to the
      first newline; a carriage return before that newline is dropped too. */
  function FirstLine(text: string): (line: string)
    ensures '\n' !in line
    ensures |line| <= |text| && line == text[..|line|]
    ensures '\n' !in text ==> line == text
  {
    if |text| == 0 then []
    else if text[0] == '\n' then []
    else if text[0] == '\r' && |text| > 1 && text[1] == '\n' then []
    else [text[0]] + FirstLine(text[1..])
  }

  /** A line followed by a newline and anything else reads back as that line. */
  lemma {:induction false} FirstLineOf(line: string, rest: string)
    requires '\n' !in line && (|line| == 0 || line[|line| - 1] != '\r')
    ensures FirstLine(line + "\n" + rest) == line
  {
    if |line| > 0 {
      var text := line + "\n" + rest;
      assert text[1..] == line[1..] + "\n" + rest;
      if line[0] == '\r' {
        assert |line| > 1;
        assert text[1] == line[1];
      }
      FirstLineOf(line[1..], rest);
    }
  }

  /** A line ended by a carriage return and a newline reads back without
      either of them. */
  lemma {:induction false} FirstLineOfCrLf(line: string, rest: string)
    requires '\n' !in line
    ensures FirstLine(line + "\r\n" + rest) == line
  {
    if |line| > 0 {
      var text := line + "\r\n" + rest;
      assert text[1..] == line[1..] + "\r\n" + rest;
      if line[0] == '\r' {
        assert text[1] != '\n';
      }
      FirstLineOfCrLf(line[1..], rest);
    }
  }

  /** `read_line`: the first line of the file parsed as a `u32`. An empty file
      is its own error; an I/O error opening or reading the file is passed on. */
  function ReadLine(files: Files, p: Path): (r: Result<nat, Error>)
    ensures Lookup(files, p).Unreadable? ==> r == Err(Io(Lookup(files, p).kind))
    ensures Lookup(files, p) == Contents([]) ==> r == Err(Msg(EmptyFile))
    ensures r.Ok? ==> r.value < U32Limit
    ensures r.Ok? ==> Lookup(files, p).Contents?
                      && ParseUnsigned(FirstLine(Lookup(files, p).text), U32Limit) == Some(r.value)
    ensures r.Err? && Lookup(files, p).Contents? && |Lookup(files, p).text| > 0 ==> r.error == Parse
    ensures Lookup(files, p).Contents? && |Lookup(files, p).text| > 0
            && ParseUnsigned(FirstLine(Lookup(files, p).text), U32Limit).Some? ==>
              r == Ok(ParseUnsigned(FirstLine(Lookup(files, p).text), U32Limit).value)
  {
    match Lookup(files, p)
    case Unreadable(k) => Err(Io(k))
    case Contents(text) =>
      if |text| == 0 then Err(Msg(EmptyFile))
      else match ParseUnsigned(FirstLine(text), U32Limit)
        case Some(v) => Ok(v)
        case None => Err(Parse)
  }

  /** A file in the form the driver writes, the decimal text of a `u32` ended
      by a newline, reads back as that number whatever follows. */
  lemma ReadLineTerminated(files: Files, p: Path, n: nat, rest: string)
    requires n < U32Limit
    requires Lookup(files, p) == Contents(Show(n) + "\n" + rest)
    ensures ReadLine(files, p) == Ok(n)
  {
    ShowIsDigits(n);
    assert '\n' !in Show(n);
    FirstLineOf(Show(n), rest);
    ParseShow(n, U32Limit);
  }

  /** A file holding exactly the decimal text of a `u32` reads back as it. */
  lemma ReadLineShow(files: Files, p: Path, n: nat)
    requires n < U32Limit
    requires Lookup(files, p) == Contents(Show(n))
    ensures ReadLine(files, p) == Ok(n)
  {
    ShowIsDigits(n);
    assert FirstLine(Show(n)) == Show(n);
    ParseShow(n, U32Limit);
  }
}

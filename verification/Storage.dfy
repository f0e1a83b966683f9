/** The container as a `Read + Seek` source, and the two fill loops over it (core/src/volume.rs:504-526).
    What the source does to each call is an arbitrary finite script: short reads, interruptions and failures
    of `read`, and failures of `seek`. Once the script is used up, calls are served in full. */
module Storage {
  import opened Bytes
  import opened Errors
  import opened Xts

  datatype IoEvent = Short(limit: nat) | Interrupt | Fail

  /** What happens to each `read` in turn, and whether each `seek` succeeds. */
  datatype Script = Script(events: seq<IoEvent>, seeks: seq<bool>) {
    /** A source that fails no call, however short it reads and however often it interrupts. */
    predicate Sound() { Fail !in events && false !in seeks }

    predicate SeekServed() { seeks == [] || seeks[0] }

    function AfterSeek(): (r: Script)
      ensures r.events == events && |r.seeks| == (if seeks == [] then 0 else |seeks| - 1)
    {
      if seeks == [] then this else this.(seeks := seeks[1..])
    }
  }

  datatype ReadResult = Got(n: nat) | Interrupted | Broken

  /** Bytes from `pos` to the end of an image of `size` bytes. */
  function Remaining(size: nat, pos: nat): nat { if pos < size then size - pos else 0 }

  /** What one `read` call delivers when `want` bytes fit the buffer and `avail` are left. */
  function Served(events: seq<IoEvent>, want: nat, avail: nat): (r: ReadResult)
    ensures r.Got? ==> r.n <= want && r.n <= avail && (r.n == 0 <==> want == 0 || avail == 0)
  {
    if events == [] then Got(Min(want, avail))
    else
      match events[0]
      case Short(limit) => Got(Min(Max(limit, 1), Min(want, avail)))
      case Interrupt => Interrupted
      case Fail => Broken
  }

  function Rest(events: seq<IoEvent>): seq<IoEvent> { if events == [] then [] else events[1..] }

  class Reader {
    const data: seq<byte>
    var pos: nat
    var script: Script

    constructor (data: seq<byte>, script: Script)
      ensures this.data == data && pos == 0 && this.script == script
    {
      this.data, this.pos, this.script := data, 0, script;
    }

    method Seek(to: nat) returns (r: Result<nat>)
      modifies this
      ensures script == old(script).AfterSeek()
      ensures r == if old(script).SeekServed() then Ok(to) else Err(Io)
      ensures pos == if r.Ok? then to else old(pos)
    {
      var served := script.SeekServed();
      script := script.AfterSeek();
      if !served {
        return Err(Io);
      }
      pos := to;
      return Ok(to);
    }

    /** `read(&mut buf[from..])`. */
    method Read(buf: array<byte>, from: nat) returns (r: ReadResult)
      requires from <= buf.Length
      modifies this, buf
      ensures r == Served(old(script).events, buf.Length - from, Remaining(|data|, old(pos)))
      ensures script == old(script).(events := Rest(old(script).events))
      ensures pos == old(pos) + if r.Got? then r.n else 0
      ensures r.Got? ==> buf[..] == Splice(old(buf[..]), from, Window(data, old(pos), r.n))
      ensures !r.Got? ==> buf[..] == old(buf[..])
    {
      r := Served(script.events, buf.Length - from, Remaining(|data|, pos));
      script := script.(events := Rest(script.events));
      if r.Got? {
        Overwrite(buf, from, Window(data, pos, r.n));
        pos := pos + r.n;
      }
    }
  }

  /** Whether filling `want` bytes with `avail` left meets no failure, and the part of the script left over. */
  function FillOutcome(events: seq<IoEvent>, want: nat, avail: nat): (r: (bool, seq<IoEvent>))
    decreases events
  {
    if want == 0 || events == [] then (true, events)
    else
      match Served(events, want, avail)
      case Got(n) => if n == 0 then (true, events[1..]) else FillOutcome(events[1..], want - n, avail - n)
      case Interrupted => FillOutcome(events[1..], want, avail)
      case Broken => (false, events[1..])
  }

  /** Only a failure breaks a fill: short reads and interruptions, however many, never do. */
  lemma {:induction false} FillSurvivesInterrupts(events: seq<IoEvent>, want: nat, avail: nat)
    requires Fail !in events
    ensures FillOutcome(events, want, avail).0
    decreases events
  {
    if want != 0 && events != [] {
      match Served(events, want, avail) {
        case Got(n) => FillSurvivesInterrupts(events[1..], want - n, avail - n);
        case Interrupted => FillSurvivesInterrupts(events[1..], want, avail);
        case Broken =>
      }
    }
  }

  /** And a failure does break it, if it comes after interruptions only; one that comes when nothing is wanted
      any more does not. */
  lemma {:induction false} FillBreaks(interrupts: nat, rest: seq<IoEvent>, want: nat, avail: nat)
    ensures var events := seq(interrupts, _ => Interrupt) + [Fail] + rest;
            FillOutcome(events, want, avail) == if want == 0 then (true, events) else (false, rest)
    decreases interrupts
  {
    var events := seq(interrupts, _ => Interrupt) + [Fail] + rest;
    if want > 0 {
      if interrupts == 0 {
        assert events[0] == Fail && events[1..] == rest;
      } else {
        assert events[0] == Interrupt && events[1..] == seq(interrupts - 1, _ => Interrupt) + [Fail] + rest;
        FillBreaks(interrupts - 1, rest, want, avail);
      }
    }
  }

  /** A short read delivers at least one byte and at most what it was limited to, and the fill goes on from
      there. */
  lemma FillGoesOn(limit: nat, rest: seq<IoEvent>, want: nat, avail: nat)
    requires want > 0 && avail > 0
    ensures var n := Min(if limit == 0 then 1 else limit, Min(want, avail));
            FillOutcome([Short(limit)] + rest, want, avail) == FillOutcome(rest, want - n, avail - n)
  {
    assert ([Short(limit)] + rest)[1..] == rest;
  }

  /** The part left over is a suffix. */
  lemma {:induction false} FillConsumesPrefix(events: seq<IoEvent>, want: nat, avail: nat)
    ensures var rest := FillOutcome(events, want, avail).1;
            |rest| <= |events| && rest == events[|events| - |rest|..]
    decreases events
  {
    if want != 0 && events != [] {
      match Served(events, want, avail) {
        case Got(n) => FillConsumesPrefix(events[1..], want - n, avail - n);
        case Interrupted => FillConsumesPrefix(events[1..], want, avail);
        case Broken =>
      }
    }
  }

  /** `read_available`: fills `buf` as far as the image goes and with zeros after that, and reports how
      many bytes are real. It ends under every script. */
  method ReadAvailable(reader: Reader, buf: array<byte>) returns (r: Result<nat>)
    modifies reader, buf
    ensures var avail := Remaining(|reader.data|, old(reader.pos));
            var outcome := FillOutcome(old(reader.script).events, buf.Length, avail);
            reader.script == old(reader.script).(events := outcome.1) && (r.Ok? <==> outcome.0)
    ensures r.Ok? ==> r.value == Min(buf.Length, Remaining(|reader.data|, old(reader.pos)))
    ensures r.Ok? ==> buf[..] == Window(reader.data, old(reader.pos), buf.Length)
    ensures r.Err? ==> r.error == Io
  {
    hide Splice, Window;
    ghost var image, start := reader.data, reader.pos;
    var filled := 0;
    while filled < buf.Length
      invariant filled <= buf.Length && reader.pos == start + filled
      invariant filled <= Remaining(|image|, start)
      invariant buf[..filled] == Window(image, start, filled)
      invariant reader.script.seeks == old(reader.script.seeks)
      invariant FillOutcome(reader.script.events, buf.Length - filled, Remaining(|image|, start) - filled)
             == FillOutcome(old(reader.script.events), buf.Length, Remaining(|image|, start))
      decreases |reader.script.events|, buf.Length - filled
    {
      ghost var before := buf[..];
      var got := reader.Read(buf, filled);
      match got {
        case Got(n) =>
          FilledFurther(image, start, before, filled, n);
          if n == 0 {
            break;
          }
          filled := filled + n;
        case Interrupted =>
        case Broken =>
          return Err(Io);
      }
    }
    ZeroTail(buf, filled);
    ZeroFilled(image, start, filled, buf.Length);
    return Ok(filled);
  }

  /** `buf[filled..].fill(0)`. */
  method ZeroTail(buf: array<byte>, filled: nat)
    requires filled <= buf.Length
    modifies buf
    ensures buf[..] == old(buf[..filled]) + Zeros(buf.Length - filled)
  {
    forall i | filled <= i < buf.Length {
      buf[i] := 0;
    }
  }

  lemma ZeroFilled(image: seq<byte>, start: nat, filled: nat, n: nat)
    requires filled <= n && (filled < n ==> Remaining(|image|, start) == filled)
    ensures Window(image, start, filled) + Zeros(n - filled) == Window(image, start, n)
  {
  }

  lemma FilledFurther(image: seq<byte>, start: nat, buf: seq<byte>, filled: nat, n: nat)
    requires filled + n <= |buf| && buf[..filled] == Window(image, start, filled)
    ensures Splice(buf, filled, Window(image, start + filled, n))[..filled + n] == Window(image, start, filled + n)
  {
    var next := Splice(buf, filled, Window(image, start + filled, n));
    forall i | 0 <= i < filled + n ensures next[i] == Window(image, start, filled + n)[i] {
      if i < filled {
        assert next[i] == buf[..filled][i];
      }
    }
  }

  // ---- fetching a range of the image --------------------------------------

  /** The script after a seek and a fill of `want` bytes at `offset`, and whether neither failed. */
  function FetchOutcome(script: Script, size: nat, offset: nat, want: nat): (bool, Script) {
    if !script.SeekServed() then (false, script.AfterSeek())
    else
      var (filled, events) := FillOutcome(script.events, want, Remaining(size, offset));
      (filled, script.AfterSeek().(events := events))
  }

  /** Seek, then `read_available` into a fresh buffer of `want` bytes. */
  method Fetch(reader: Reader, offset: nat, want: nat) returns (r: Result<nat>, buf: array<byte>)
    modifies reader
    ensures fresh(buf) && buf.Length == want
    ensures var outcome := FetchOutcome(old(reader.script), |reader.data|, offset, want);
            reader.script == outcome.1 && (r.Ok? <==> outcome.0)
    ensures r.Ok? ==> r.value == Min(want, Remaining(|reader.data|, offset))
    ensures r.Ok? ==> buf[..] == Window(reader.data, offset, want)
    ensures r.Err? ==> r.error == Io
  {
    buf := new byte[want](_ => 0);
    var sought := reader.Seek(offset);
    if sought.Err? {
      return Err(Io), buf;
    }
    r := ReadAvailable(reader, buf);
  }

  /** Seek, then `read_fill`: as `Fetch`, but an image that ends early is an I/O error. */
  method FetchExactly(reader: Reader, offset: nat, want: nat) returns (r: Result<seq<byte>>)
    modifies reader
    ensures var outcome := FetchOutcome(old(reader.script), |reader.data|, offset, want);
            && reader.script == outcome.1
            && r == if outcome.0 && want <= Remaining(|reader.data|, offset)
                    then Ok(Window(reader.data, offset, want)) else Err(Io)
  {
    var got, buf := Fetch(reader, offset, want);
    if got.Err? || got.value < want {
      return Err(Io);
    }
    return Ok(buf[..]);
  }

  lemma SeekSurvives(script: Script)
    requires script.Sound()
    ensures script.SeekServed() && script.AfterSeek().Sound()
  {
    if script.seeks != [] {
      assert script.seeks[0] in script.seeks;
      assert forall e | e in script.seeks[1..] :: e in script.seeks;
    }
  }

  /** A source that fails no call is never reported as failing, however short it reads and however often it
      interrupts. */
  lemma FetchSurvives(script: Script, size: nat, offset: nat, want: nat)
    requires script.Sound()
    ensures var outcome := FetchOutcome(script, size, offset, want);
            outcome.0 && outcome.1.Sound()
  {
    SeekSurvives(script);
    FillSurvivesInterrupts(script.events, want, Remaining(size, offset));
    FillConsumesPrefix(script.events, want, Remaining(size, offset));
    var rest := FillOutcome(script.events, want, Remaining(size, offset)).1;
    assert forall e | e in rest :: e in script.events;
  }
}

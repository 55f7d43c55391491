/** The streaming body wrappers of src/proxy/body_limit.rs.

    An inner body is a script of poll results; every poll happens at a given time, in
    milliseconds. The counter `seen` is a natural number: overflow is not modelled. */
module BodyLimit {
  import opened Net

  datatype Frame = Data(bytes: seq<byte>) | Trailers

  datatype Error = TooLarge | IdleTimeout | Other(message: string)

  datatype Poll<+E> = Pending | Got(frame: Frame) | Failed(error: E) | End

  function Display(e: Error): string {
    match e
    case TooLarge => "body too large"
    case IdleTimeout => "body idle timeout"
    case Other(m) => m
  }

  // ---- The wrappers on values ----

  function MapErr(p: Poll<string>): Poll<Error> {
    match p
    case Pending => Pending
    case Got(f) => Got(f)
    case Failed(m) => Failed(Other(m))
    case End => End
  }

  function FrameSize<E>(p: Poll<E>): nat {
    if p.Got? && p.frame.Data? then |p.frame.bytes| else 0
  }

  /** The limiter, after its counter has been advanced to `seen`. */
  function Limit(p: Poll<Error>, seen: nat, max: nat): Poll<Error> {
    if p.Got? && p.frame.Data? && seen > max then Failed(TooLarge)
    else if p.Failed? then Failed(Other(Display(p.error)))
    else p
  }

  function Idle(p: Poll<Error>, now: nat, deadline: nat): Poll<Error> {
    if p.Pending? && now >= deadline then Failed(IdleTimeout) else p
  }

  // ---- The wrappers as objects ----

  class Body {
    const script: seq<Poll<string>>
    var pos: nat

    constructor (script: seq<Poll<string>>)
      ensures this.script == script && pos == 0
    {
      this.script := script;
      pos := 0;
    }

    /** The result of the next poll; a script that is used up stays pending. */
    function Upcoming(): Poll<string>
      reads this
    {
      if pos < |script| then script[pos] else Pending
    }

    method PollFrame() returns (p: Poll<string>)
      modifies this
      ensures p == old(Upcoming()) && pos == old(pos) + 1
    {
      p := Upcoming();
      pos := pos + 1;
    }
  }

  class MapErrBody {
    const inner: Body

    constructor (inner: Body)
      ensures this.inner == inner
    {
      this.inner := inner;
    }

    method PollFrame() returns (p: Poll<Error>)
      modifies inner
      ensures p == MapErr(old(inner.Upcoming())) && inner.pos == old(inner.pos) + 1
    {
      var q := inner.PollFrame();
      match q {
        case Pending => p := Pending;
        case Got(f) => p := Got(f);
        case Failed(m) => p := Failed(Other(m));
        case End => p := End;
      }
    }
  }

  class LimitedBody {
    const inner: MapErrBody
    const max: nat
    var seen: nat

    constructor (inner: MapErrBody, max: nat)
      ensures this.inner == inner && this.max == max && seen == 0
    {
      this.inner, this.max := inner, max;
      seen := 0;
    }

    method PollFrame() returns (p: Poll<Error>)
      modifies this, inner.inner
      ensures inner.inner.pos == old(inner.inner.pos) + 1
      ensures seen == old(seen) + FrameSize(old(inner.inner.Upcoming()))
      ensures p == Limit(MapErr(old(inner.inner.Upcoming())), seen, max)
    {
      var q := inner.PollFrame();
      match q {
        case Got(frame) =>
          if frame.Data? {
            seen := seen + |frame.bytes|;
            if seen > max {
              return Failed(TooLarge);
            }
          }
          p := Got(frame);
        case Failed(e) => p := Failed(Other(Display(e)));
        case End => p := End;
        case Pending => p := Pending;
      }
    }
  }

  /** The shortest idle time, in milliseconds. */
  const MIN_IDLE := 50

  class IdleBody {
    const inner: LimitedBody
    const idle: nat
    var deadline: nat

    constructor (inner: LimitedBody, idle: nat, now: nat)
      ensures this.inner == inner && this.idle == Max(idle, MIN_IDLE) && deadline == now + this.idle
    {
      this.inner, this.idle := inner, Max(idle, MIN_IDLE);
      deadline := now + Max(idle, MIN_IDLE);
    }

    method PollFrame(now: nat) returns (p: Poll<Error>)
      modifies this, inner, inner.inner.inner
      ensures inner.inner.inner.pos == old(inner.inner.inner.pos) + 1
      ensures inner.seen == old(inner.seen) + FrameSize(old(inner.inner.inner.Upcoming()))
      ensures p == Idle(Limit(MapErr(old(inner.inner.inner.Upcoming())), inner.seen, inner.max), now, old(deadline))
      ensures deadline == if p.Got? then now + idle else old(deadline)
    {
      p := inner.PollFrame();
      match p {
        case Got(_) => deadline := now + idle;
        case Failed(_) =>
        case End =>
        case Pending => if now >= deadline { p := Failed(IdleTimeout); }
      }
    }
  }

  // ---- Collecting ----

  datatype Outcome = Ok(bytes: seq<byte>) | Err(error: Error) | Unfinished

  /** Polls of the raw body with their times. */
  datatype Event = Event(now: nat, poll: Poll<string>)

  datatype Config = Config(max: nat, idle: nat, start: nat)

  /** The data frames seen so far, concatenated. */
  function Bytes(es: seq<Event>): seq<byte> {
    if es == [] then [] else
    var p := es[|es| - 1].poll;
    Bytes(es[..|es| - 1]) + (if p.Got? && p.frame.Data? then p.frame.bytes else [])
  }

  /** What one poll adds: the bytes of a data frame, else nothing. */
  function DataOf(e: Event): seq<byte> {
    if e.poll.Got? && e.poll.frame.Data? then e.poll.frame.bytes else []
  }

  lemma BytesLast(es: seq<Event>, e: Event)
    ensures Bytes(es + [e]) == Bytes(es) + DataOf(e)
  {
    assert (es + [e])[..|es|] == es;
  }

  /** The data frames keep their order: the bytes are those of the first poll, then the rest. */
  lemma {:induction false} BytesFirst(e: Event, es: seq<Event>)
    ensures Bytes([e] + es) == DataOf(e) + Bytes(es)
  {
    if es == [] {
      BytesLast([], e);
      assert [e] + es == [] + [e];
    } else {
      var n := |es| - 1;
      BytesFirst(e, es[..n]);
      BytesLast([e] + es[..n], es[n]);
      BytesLast(es[..n], es[n]);
      Regrouped(e, es);
    }
  }

  lemma Regrouped(e: Event, es: seq<Event>)
    requires es != []
    ensures [e] + es == ([e] + es[..|es| - 1]) + [es[|es| - 1]] && es == es[..|es| - 1] + [es[|es| - 1]]
  {
  }

  /** When the idle timer runs out: one idle time after the last frame, or after the start. */
  function Deadline(c: Config, es: seq<Event>): nat {
    if es == [] then c.start + Max(c.idle, MIN_IDLE)
    else if es[|es| - 1].poll.Got? then es[|es| - 1].now + Max(c.idle, MIN_IDLE)
    else Deadline(c, es[..|es| - 1])
  }

  /** The event that ends the collection: the end, an error, a frame that crosses the limit,
      or a poll that finds nothing after the timer has run out. */
  predicate Stops(c: Config, es: seq<Event>, k: nat)
    requires k < |es|
  {
    match es[k].poll
    case End => true
    case Failed(_) => true
    case Got(f) => f.Data? && |Bytes(es[..k + 1])| > c.max
    case Pending => es[k].now >= Deadline(c, es[..k])
  }

  function OutcomeAt(c: Config, es: seq<Event>, k: nat): Outcome
    requires k < |es|
  {
    match es[k].poll
    case End => Ok(Bytes(es[..k]))
    case Failed(m) => Err(Other(m))
    case Got(_) => Err(TooLarge)
    case Pending => Err(IdleTimeout)
  }

  function Script(es: seq<Event>): (s: seq<Poll<string>>)
    ensures |s| == |es| && forall i :: 0 <= i < |es| ==> s[i] == es[i].poll
  {
    seq(|es|, i requires 0 <= i < |es| => es[i].poll)
  }

  /** The first stopping event decides: collection succeeds exactly when that event is the end
      of the body, with exactly the concatenation of the data frames, never more than the
      limit; otherwise the event names the error. */
  method CollectLimited(es: seq<Event>, c: Config) returns (r: Outcome)
    ensures forall k :: 0 <= k < |es| && Stops(c, es, k) && (forall i :: 0 <= i < k ==> !Stops(c, es, i)) ==>
              r == OutcomeAt(c, es, k)
    ensures (forall k :: 0 <= k < |es| ==> !Stops(c, es, k)) ==> r == Unfinished
    ensures r.Ok? ==> |r.bytes| <= c.max
  {
    var body := new Body(Script(es));
    var mapped := new MapErrBody(body);
    var limited := new LimitedBody(mapped, c.max);
    var wrapped := new IdleBody(limited, c.idle, c.start);
    var collected: seq<byte> := [];
    for i := 0 to |es|
      invariant body.pos == i && limited.seen == |collected| <= c.max
      invariant collected == Bytes(es[..i]) && wrapped.deadline == Deadline(c, es[..i])
      invariant forall k :: 0 <= k < i ==> !Stops(c, es, k)
    {
      assert es[..i + 1][..i] == es[..i];
      var p := wrapped.PollFrame(es[i].now);
      assert limited.seen == |Bytes(es[..i + 1])|;
      match p {
        case Got(f) =>
          if f.Data? {
            collected := collected + f.bytes;
          }
        case Failed(e) =>
          assert Stops(c, es, i);
          return Err(e);
        case End =>
          assert Stops(c, es, i);
          return Ok(collected);
        case Pending =>
      }
    }
    r := Unfinished;
  }

  // ---- The limiter polled past its errors ----

  /** The bytes the limiter lets through over a whole script, errors included. */
  function Released(max: nat, es: seq<Event>): seq<byte> {
    if es == [] then [] else
    var n := |es| - 1;
    var q := Limit(MapErr(es[n].poll), |Bytes(es)|, max);
    Released(max, es[..n]) + (if q.Got? && q.frame.Data? then q.frame.bytes else [])
  }

  /** Polling the limiter to the end of the script, whatever it reports, yields those bytes. */
  method PollAll(es: seq<Event>, max: nat) returns (bytes: seq<byte>)
    ensures bytes == Released(max, es)
    ensures bytes <= Bytes(es) && |bytes| <= max && (|Bytes(es)| <= max ==> bytes == Bytes(es))
  {
    var body := new Body(Script(es));
    var mapped := new MapErrBody(body);
    var limited := new LimitedBody(mapped, max);
    bytes := [];
    for i := 0 to |es|
      invariant body.pos == i && limited.seen == |Bytes(es[..i])|
      invariant bytes == Released(max, es[..i])
    {
      assert es[..i + 1][..i] == es[..i];
      var p := limited.PollFrame();
      if p.Got? && p.frame.Data? {
        bytes := bytes + p.frame.bytes;
      }
    }
    assert es[..|es|] == es;
    ReleasedWithinLimit(max, es);
  }

  /** Even a caller that ignores errors gets at most `max` bytes, a prefix of the body, all of
      it if it fits; once the limit is crossed no data frame is released any more. */
  lemma {:induction false} ReleasedWithinLimit(max: nat, es: seq<Event>)
    ensures Released(max, es) <= Bytes(es) && |Released(max, es)| <= max
    ensures |Bytes(es)| <= max ==> Released(max, es) == Bytes(es)
    ensures forall m :: 0 <= m <= |es| && |Bytes(es[..m])| > max ==> Released(max, es) == Released(max, es[..m])
  {
    if es != [] {
      var n := |es| - 1;
      ReleasedWithinLimit(max, es[..n]);
      forall m | 0 <= m <= |es| && |Bytes(es[..m])| > max ensures Released(max, es) == Released(max, es[..m]) {
        if m == |es| {
          assert es[..m] == es;
        } else {
          assert es[..n][..m] == es[..m];
          BytesGrow(es, m);
        }
      }
    } else {
      assert es[..0] == es;
    }
  }

  lemma {:induction false} BytesGrow(es: seq<Event>, m: nat)
    requires m <= |es|
    ensures Bytes(es[..m]) <= Bytes(es)
  {
    if m < |es| {
      var n := |es| - 1;
      BytesGrow(es[..n], m);
      assert es[..n][..m] == es[..m];
    } else {
      assert es[..m] == es;
    }
  }
}

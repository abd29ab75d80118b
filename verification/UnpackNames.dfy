/** UnpackDomainName (msg.go): wire form to presentation form, following compression pointers; and the
    name skipper of rawmsg.go. */
module UnpackNames {
  import opened Bytes
  import opened Names

  const MAX_POINTERS: nat := 10
  const MAX_WIRE_OCTETS: nat := 255 // maxDomainNameWireOctets, section 2.3.4 of RFC 1035

  // ---------- Specification ----------

  /** The labels read and the offset just after the name, or the error met. */
  datatype Walked = Walked(labels: seq<Label>, off1: nat) | Failed(err: Error) {
    function Prepend(ls: seq<Label>): Walked {
      match this
      case Walked(more, off1) => Walked(ls + more, off1)
      case Failed(_) => this
    }

    /** Only the first pointer decides where the name ends. */
    function EndsAt(off: nat): Walked {
      match this
      case Walked(ls, _) => Walked(ls, off)
      case Failed(_) => this
    }
  }

  function Target(msg: str, off: nat): nat
    requires off + 1 < |msg| && msg[off] >= 192
  {
    (msg[off] as int - 192) * 256 + msg[off + 1]
  }

  /** Reads a name at off, following at most hops pointers. */
  function Walk(msg: str, off: nat, hops: nat): Walked
    decreases hops, |msg| - off
  {
    if off >= |msg| then Failed(ErrBuf)
    else
      var c := msg[off];
      if c == 0 then Walked([], off + 1)
      else if c < 64 then
        if off + 1 + c > |msg| then Failed(ErrBuf)
        else Walk(msg, off + 1 + c, hops).Prepend([msg[off + 1..off + 1 + c]])
      else if c >= 192 then
        if off + 1 >= |msg| then Failed(ErrBuf)
        else if hops == 0 then Failed(ErrPointers)
        else Walk(msg, Target(msg, off), hops - 1).EndsAt(off + 2)
      else Failed(ErrRdata)
  }

  /** What UnpackDomainName returns: the name, the next offset, the error. */
  datatype NameResult = NameResult(name: str, off1: nat, err: Error)

  function UnpackName(msg: str, off: nat): NameResult {
    match Walk(msg, off, MAX_POINTERS)
    case Failed(err) => NameResult([], |msg|, err)
    case Walked(ls, off1) =>
      if LabelsLen(ls) + 1 > MAX_WIRE_OCTETS then NameResult(NameString(ls), |msg|, ErrLongDomain)
      else NameResult(NameString(ls), off1, NoError)
  }

  /** rawSetRdlength's walk over a name: the offset after it, or none when the message ends first. */
  function SkipName(msg: str, off: nat): Option<nat>
    decreases |msg| - off
  {
    if off + 1 > |msg| then None
    else
      var c := msg[off];
      if c == 0 then Some(off + 1)
      else if c < 64 then if off + 1 + c > |msg| then None else SkipName(msg, off + 1 + c)
      else if c >= 192 then Some(off + 2)
      else SkipName(msg, off + 1)
  }

  /** The length test weighs the escaped string against an allowance that grows with every escape. */
  lemma WalkInBounds(msg: str, off: nat, hops: nat)
    ensures var w := Walk(msg, off, hops);
            if w.Walked? then ValidLabels(w.labels) && w.off1 <= |msg| else w.err != NoError
    decreases hops, |msg| - off
  {
  }

  // ---------- The unpacker ----------

  /** The outcome of the whole walk, seen from the middle: the labels in done are read, ptr pointers
      are followed, and the first of them ended at off1. */
  ghost function Outcome(msg: str, off: nat, ptr: nat, off1: nat, done: seq<Label>): Walked
    requires ptr <= MAX_POINTERS
  {
    var rest := Walk(msg, off, MAX_POINTERS - ptr).Prepend(done);
    if ptr == 0 then rest else rest.EndsAt(off1)
  }

  lemma OutcomeStart(msg: str, off: nat)
    ensures Outcome(msg, off, 0, 0, []) == Walk(msg, off, MAX_POINTERS)
  {
    var w := Walk(msg, off, MAX_POINTERS);
    if w.Walked? {
      assert [] + w.labels == w.labels;
    }
  }

  lemma OutcomeLabel(msg: str, off: nat, ptr: nat, off1: nat, done: seq<Label>)
    requires ptr <= MAX_POINTERS && off < |msg| && 0 < msg[off] < 64
    ensures if off + 1 + msg[off] > |msg| then Outcome(msg, off, ptr, off1, done) == Failed(ErrBuf)
            else Outcome(msg, off, ptr, off1, done)
                 == Outcome(msg, off + 1 + msg[off], ptr, off1, done + [msg[off + 1..off + 1 + msg[off]]])
  {
    if off + 1 + msg[off] <= |msg| {
      var l := msg[off + 1..off + 1 + msg[off]];
      var rest := Walk(msg, off + 1 + msg[off], MAX_POINTERS - ptr);
      if rest.Walked? {
        assert done + ([l] + rest.labels) == done + [l] + rest.labels;
      }
    }
  }

  lemma OutcomePointer(msg: str, off: nat, ptr: nat, off1: nat, done: seq<Label>)
    requires ptr <= MAX_POINTERS && off < |msg| && msg[off] >= 192
    ensures if off + 1 >= |msg| then Outcome(msg, off, ptr, off1, done) == Failed(ErrBuf)
            else if ptr == MAX_POINTERS then Outcome(msg, off, ptr, off1, done) == Failed(ErrPointers)
            else Outcome(msg, off, ptr, off1, done)
                 == Outcome(msg, Target(msg, off), ptr + 1, if ptr == 0 then off + 2 else off1, done)
  {
  }

  lemma OutcomeStop(msg: str, off: nat, ptr: nat, off1: nat, done: seq<Label>)
    requires ptr <= MAX_POINTERS
    ensures off >= |msg| ==> Outcome(msg, off, ptr, off1, done) == Failed(ErrBuf)
    ensures off < |msg| && msg[off] == 0 ==>
              Outcome(msg, off, ptr, off1, done) == Walked(done, if ptr == 0 then off + 1 else off1)
    ensures off < |msg| && 64 <= msg[off] < 192 ==> Outcome(msg, off, ptr, off1, done) == Failed(ErrRdata)
  {
    assert done + [] == done;
  }

  method UnpackDomainName(msg: str, off: nat) returns (name: str, off1: nat, err: Error)
    ensures NameResult(name, off1, err) == UnpackName(msg, off)
    ensures off1 <= |msg|
    ensures err == NoError ==>
              var w := Walk(msg, off, 10);
              && w.Walked? && off1 == w.off1 && LabelsLen(w.labels) < 255
              && if w.labels == [] then name == [46] else Prints(name, w.labels[0], w.labels[1..])
  {
    hide Present, EscapeAll, Outcome, Walk, LabelsLen, Prints;
    var s: str, maxLen: int, ptr: nat, off2: nat := [], MAX_WIRE_OCTETS, 0, off;
    off1 := 0;
    ghost var done: seq<Label> := [];
    ghost var w := Walk(msg, off, MAX_POINTERS);
    PresentNone();
    OutcomeStart(msg, off);
    WalkInBounds(msg, off, MAX_POINTERS);
    while true
      invariant ptr <= MAX_POINTERS
      invariant s == Present(done) && maxLen == MAX_WIRE_OCTETS + |s| - LabelsLen(done)
      invariant s == [] <==> done == []
      invariant w == Outcome(msg, off2, ptr, off1, done)
      decreases MAX_POINTERS - ptr, |msg| - off2
    {
      OutcomeStop(msg, off2, ptr, off1, done);
      if off2 >= |msg| {
        return [], |msg|, ErrBuf;
      }
      var c := msg[off2];
      if c < 64 {
        if c == 0 {
          off2 := off2 + 1;
          break;
        }
        OutcomeLabel(msg, off2, ptr, off1, done);
        off2 := off2 + 1;
        if off2 + c > |msg| {
          return [], |msg|, ErrBuf;
        }
        ghost var l := msg[off2..off2 + c];
        var t, extra := AppendLabel(msg, off2, c);
        PresentSnoc(done, l);
        done := done + [l];
        s, maxLen := s + t + [DOT], maxLen + extra;
        off2 := off2 + c;
      } else if c >= 192 {
        OutcomePointer(msg, off2, ptr, off1, done);
        off2 := off2 + 1;
        if off2 >= |msg| {
          return [], |msg|, ErrBuf;
        }
        var c1 := msg[off2];
        off2 := off2 + 1;
        if ptr == 0 {
          off1 := off2;
        }
        ptr := ptr + 1;
        if ptr > 10 {
          return [], |msg|, ErrPointers;
        }
        off2 := (c as int - 192) * 256 + c1;
      } else {
        return [], |msg|, ErrRdata;
      }
    }
    if ptr == 0 {
      off1 := off2;
    }
    PresentNone();
    if |s| == 0 {
      s := ROOT;
    } else if |s| >= maxLen {
      return s, |msg|, ErrLongDomain;
    }
    NamePrints(done);
    return s, off1, NoError;
  }

  lemma NamePrints(ls: seq<Label>)
    ensures ls != [] ==> Prints(Present(ls), ls[0], ls[1..])
  {
    if ls != [] { PresentPrints(ls[0], ls[1..]); }
  }

  /** Escapes the c octets of a label; extra counts the characters that escaping added. */
  method AppendLabel(msg: str, off: nat, c: nat) returns (t: str, extra: nat)
    requires off + c <= |msg|
    ensures t == EscapeAll(msg[off..off + c])
    ensures |t| == c + extra
  {
    hide Escape;
    t, extra := [], 0;
    for j := off to off + c
      invariant t == EscapeAll(msg[off..j]) && |t| == j - off + extra
    {
      var b := msg[j];
      assert msg[off..j + 1] == msg[off..j] + [b];
      EscapeAllSnoc(msg[off..j], b);
      t := t + Escape(b);
      if IsSpecial(b) {
        extra := extra + 1;
      } else if !IsPrintable(b) {
        extra := extra + 3;
      }
    }
  }

  lemma PresentNone()
    ensures Present([]) == [] && LabelsLen([]) == 0
  {
  }

  lemma PresentSnoc(done: seq<Label>, l: Label)
    ensures Present(done + [l]) == Present(done) + EscapeAll(l) + [DOT]
    ensures LabelsLen(done + [l]) == LabelsLen(done) + |l| + 1
    ensures Present(done + [l]) != []
  {
    PresentAppend(done, [l]);
    LabelsLenAppend(done, [l]);
    assert Present([l]) == EscapeAll(l) + [DOT] + Present([]);
    assert LabelsLen([l]) == |l| + 1 + LabelsLen([]);
  }
}

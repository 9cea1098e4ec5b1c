/** Framing of input reports that arrive over the auxiliary SPI port. */
module AuxHid {

  type Byte = x: int | 0 <= x < 256

  /** A FIFO word: a byte, marked if it starts a transaction. */
  datatype Word = Word(start: bool, value: Byte)

  /** SPI_TARGET_HID and the report types. */
  const HID: Byte := 1
  const KEYBOARD: Byte := 1
  const MOUSE: Byte := 2
  const JOYSTICK: Byte := 3

  const LONGEST: nat := 7

  type Report = seq<Byte>

  /** Length of a report of some type, target and type included; 0 for unknown types. */
  function Length(kind: Byte): (n: nat)
    ensures n == 0 || 4 <= n <= LONGEST
  {
    if kind == KEYBOARD then 4 else if kind == MOUSE then 5 else if kind == JOYSTICK then 7 else 0
  }

  /** A complete report. */
  predicate Complete(r: seq<Byte>) {
    |r| >= 2 && r[0] == HID && Length(r[1]) == |r|
  }

  /** The three reports there are, by their first two bytes and their lengths. */
  lemma ReportFormats(r: seq<Byte>)
    ensures Complete(r) <==>
              |r| >= 2 && r[0] == 1 && ((r[1] == 1 && |r| == 4) || (r[1] == 2 && |r| == 5) || (r[1] == 3 && |r| == 7))
    ensures Leads(r) <==> exists n :: 4 <= n <= |r| && Complete(r[..n])
    ensures Spoiled(r) <==> (|r| >= 1 && r[0] != 1) || (|r| >= 2 && r[1] !in {1, 2, 3})
  {
    if Leads(r) {
      assert Complete(r[..Length(r[1])]);
    }
  }

  // ---------------------------------------------------------------- what a stream means

  /** A transaction starts with a complete report. */
  predicate Leads(t: seq<Byte>) {
    |t| >= 2 && t[0] == HID && 0 < Length(t[1]) <= |t|
  }

  /** The complete reports of one transaction, in order, up to the first that is cut off or has a bad header. */
  function Reports(t: seq<Byte>): seq<Report> {
    if Leads(t) then [t[..Length(t[1])]] + Reports(t[Length(t[1])..]) else []
  }

  /** What is left of a transaction after its complete reports. */
  function Rest(t: seq<Byte>): (r: seq<Byte>)
    ensures !Leads(r)
  {
    if Leads(t) then Rest(t[Length(t[1])..]) else t
  }

  /** No report can come of this any more. */
  predicate Spoiled(r: seq<Byte>) {
    || (|r| >= 1 && r[0] != HID)
    || (|r| >= 2 && Length(r[1]) == 0)
  }

  /** The transactions of a stream; what comes before the first start marker belongs to none. */
  function Transactions(s: seq<Word>): seq<seq<Byte>> {
    if s == [] then []
    else
      var ts, w := Transactions(s[..|s| - 1]), s[|s| - 1];
      if w.start then ts + [[w.value]]
      else if ts == [] then []
      else ts[..|ts| - 1] + [ts[|ts| - 1] + [w.value]]
  }

  function AllReports(ts: seq<seq<Byte>>): seq<Report> {
    if ts == [] then [] else AllReports(ts[..|ts| - 1]) + Reports(ts[|ts| - 1])
  }

  /** The reports of a stream, in order. */
  function Decoded(s: seq<Word>): seq<Report> {
    AllReports(Transactions(s))
  }

  /** One byte more: it completes a report, or it does not. */
  lemma {:induction false} OneMore(t: seq<Byte>, b: Byte)
    ensures var r := Rest(t) + [b];
      if Complete(r) then Reports(t + [b]) == Reports(t) + [r] && Rest(t + [b]) == []
      else Reports(t + [b]) == Reports(t) && Rest(t + [b]) == r
  {
    if Leads(t) {
      var n := Length(t[1]);
      assert (t + [b])[n..] == t[n..] + [b] && (t + [b])[..n] == t[..n];
      OneMore(t[n..], b);
    } else {
      var u := t + [b];
      if Complete(u) {
        assert u[|u|..] == [] && u[..|u|] == u;
      }
    }
  }

  // ---------------------------------------------------------------- the decoder

  class Decoder {
    const report: array<Byte>
    var used: nat
    var needed: nat
    var discard: bool
    /** The words fed so far and the reports handed on. */
    ghost var seen: seq<Word>
    var log: seq<Report>

    ghost predicate Valid()
      reads this, report
    {
      && report.Length == 7 && log == Decoded(seen)
      && var ts := Transactions(seen);
         if ts == [] then discard else Holding(Rest(ts[|ts| - 1]))
    }

    /** The buffer holds the unfinished report `r`, or everything up to the next start marker is ignored. */
    ghost predicate Holding(r: seq<Byte>)
      requires report.Length == LONGEST
      reads this`used, this`needed, this`discard, report
    {
      && !Leads(r) && (discard <==> Spoiled(r))
      && (!discard ==> used == |r| < LONGEST && report[..used] == r && needed == if |r| < 2 then 0 else Length(r[1]))
    }

    constructor ()
      ensures Valid() && seen == [] && log == []
    {
      report := new Byte[LONGEST](_ => 0);
      used, needed, discard, seen, log := 0, 0, true, [], [];
    }

    /** Feeds a chunk of words. Wherever the stream is cut into chunks, the reports handed on are those of the whole
        stream. */
    method Feed(chunk: seq<Word>)
      requires Valid()
      modifies this, report
      ensures Valid() && seen == old(seen) + chunk && log == Decoded(seen)
    {
      for i := 0 to |chunk|
        invariant Valid() && seen == old(seen) + chunk[..i]
      {
        FeedWord(chunk[i]);
        assert chunk[..i + 1] == chunk[..i] + [chunk[i]];
      }
      assert chunk[..|chunk|] == chunk;
    }

    method FeedWord(w: Word)
      requires Valid()
      modifies this, report
      ensures Valid() && seen == old(seen) + [w]
    {
      hide Reports(), Rest();
      WordStep(seen, w);
      ghost var ts := Transactions(seen);
      ghost var r := if w.start || ts == [] then [] else Rest(ts[|ts| - 1]);
      if w.start {
        used, needed, discard := 0, 0, false;
        assert report[..0] == [];
      }
      seen := seen + [w];
      if discard {
        return;
      }
      FeedByte(w.value, r);
    }

    /** The next byte of a transaction that is in step, after the unfinished report `r`. */
    method FeedByte(value: Byte, ghost r: seq<Byte>)
      requires report.Length == LONGEST && Holding(r) && !discard
      modifies this`used, this`needed, this`discard, this`log, report
      ensures if Complete(r + [value]) then log == old(log) + [r + [value]] && Holding([])
              else log == old(log) && (!Leads(r + [value]) ==> Holding(r + [value]))
    {
      if used == 0 {
        if value != HID {
          discard := true;
          return;
        }
        report[used] := value;
        used := used + 1;
        assert report[..used] == r + [value];
        return;
      }
      if used == 1 {
        needed := Length(value);
        if needed == 0 {
          used, discard := 0, true;
          return;
        }
      }
      report[used] := value;
      used := used + 1;
      assert report[..used] == r + [value];
      if used != needed {
        return;
      }
      log := log + [report[..used]];
      used, needed := 0, 0;
      assert report[..0] == [];
    }
  }

  /** What one word does to the decoded reports. */
  lemma WordStep(s: seq<Word>, w: Word)
    ensures var ts, us := Transactions(s), Transactions(s + [w]);
      if !w.start && ts == [] then us == [] && Decoded(s + [w]) == Decoded(s)
      else
        && us != []
        && var r := (if w.start then [] else Rest(ts[|ts| - 1])) + [w.value];
        if Complete(r) then Decoded(s + [w]) == Decoded(s) + [r] && Rest(us[|us| - 1]) == []
        else Decoded(s + [w]) == Decoded(s) && Rest(us[|us| - 1]) == r
  {
    hide Reports(), Rest();
    assert (s + [w])[..|s|] == s;
    var ts, us := Transactions(s), Transactions(s + [w]);
    if w.start {
      OneMore([], w.value);
      NoBytes();
      assert us[..|ts|] == ts && [] + [w.value] == [w.value];
    } else if ts != [] {
      OneMore(ts[|ts| - 1], w.value);
      assert us[..|us| - 1] == ts[..|ts| - 1];
    }
  }

  lemma NoBytes()
    ensures Reports([]) == [] && Rest([]) == []
  {
  }

  // ---------------------------------------------------------------- streams as they are sent

  /** Complete reports one after another, then what was cut off or came after a bad header. */
  datatype Sent = Sent(reports: seq<Report>, tail: seq<Byte>)
  {
    function Bytes(): seq<Byte> {
      Joined(reports) + tail
    }

    predicate Sound() {
      (forall i :: 0 <= i < |reports| ==> Complete(reports[i])) && !Leads(tail) && Bytes() != []
    }
  }

  function Joined(rs: seq<Report>): seq<Byte> {
    if rs == [] then [] else rs[0] + Joined(rs[1..])
  }

  /** A transaction on the wire: its first word is marked. */
  function Words(t: seq<Byte>): seq<Word> {
    if t == [] then [] else if |t| == 1 then [Word(true, t[0])] else Words(t[..|t| - 1]) + [Word(false, t[|t| - 1])]
  }

  function Wire(sents: seq<Sent>): seq<Word> {
    if sents == [] then [] else Wire(sents[..|sents| - 1]) + Words(sents[|sents| - 1].Bytes())
  }

  function AllSent(sents: seq<Sent>): seq<Report> {
    if sents == [] then [] else AllSent(sents[..|sents| - 1]) + sents[|sents| - 1].reports
  }

  /** The reports of a transaction are exactly the complete ones. */
  lemma {:induction false} ReportsSent(rs: seq<Report>, tail: seq<Byte>)
    requires (forall i :: 0 <= i < |rs| ==> Complete(rs[i])) && !Leads(tail)
    ensures Reports(Joined(rs) + tail) == rs
  {
    if rs == [] {
      assert Joined(rs) + tail == tail;
    } else {
      var t := Joined(rs) + tail;
      assert t == rs[0] + (Joined(rs[1..]) + tail);
      assert t[..|rs[0]|] == rs[0] && t[|rs[0]|..] == Joined(rs[1..]) + tail;
      ReportsSent(rs[1..], tail);
    }
  }

  lemma {:induction false} TransactionsSent(s: seq<Word>, t: seq<Byte>)
    requires t != []
    ensures Transactions(s + Words(t)) == Transactions(s) + [t]
  {
    var n := |t| - 1;
    var w := Word(n == 0, t[n]);
    if n > 0 {
      TransactionsSent(s, t[..n]);
      assert t == t[..n] + [t[n]];
      assert s + Words(t) == s + Words(t[..n]) + [w];
      assert (s + Words(t))[..|s + Words(t)| - 1] == s + Words(t[..n]);
    } else {
      assert t == [t[0]];
      assert (s + Words(t))[..|s + Words(t)| - 1] == s;
    }
  }

  /** Whatever was sent in start-marked transactions, also cut off or ending in a bad header, the decoder hands on
      exactly the complete reports, in order. */
  lemma {:induction false} DecodeSent(sents: seq<Sent>)
    requires forall i :: 0 <= i < |sents| ==> sents[i].Sound()
    ensures Decoded(Wire(sents)) == AllSent(sents)
  {
    if sents != [] {
      var n := |sents| - 1;
      DecodeSent(sents[..n]);
      var s, t := Wire(sents[..n]), sents[n].Bytes();
      TransactionsSent(s, t);
      ReportsSent(sents[n].reports, sents[n].tail);
      assert (Transactions(s) + [t])[..|Transactions(s)|] == Transactions(s);
    }
  }
}

/** A whole run of the loop every decoder of the sniffer is built around, for all byte strings: it ends, it
    leaves the buffer, or it turns forever. */
module DecoderRun {
  import opened Common
  import opened Wire

  /** How the loop goes: it ends after visiting these fields (`backs` are the numbers of those with a negative
      length), it reads in front of the buffer, or it comes back to a cursor it had before. */
  datatype Outcome = Finished(fields: seq<Field>, backs: set<nat>) | Outside | Endless

  function Remaining(d: Bytes, visited: set<int>): set<int> { set i | 0 <= i < |d| && i !in visited }

  lemma OneFewer(d: Bytes, visited: set<int>, pos: int)
    requires 0 <= pos < |d| && pos !in visited
    ensures Remaining(d, visited + {pos}) < Remaining(d, visited)
  {
    assert pos in Remaining(d, visited);
  }

  /** The field a turn at `pos` visits. A field with a negative length carries no bytes. */
  function FieldAt(d: Bytes, pos: nat): Field
    requires pos < |d| && !ReadField(d, pos).Stop?
  {
    match ReadField(d, pos)
    case Take(f, _) => f
    case Back(num, _) => FBytes(num, [])
  }

  /** The cursor after a turn at `pos`. */
  function After(d: Bytes, pos: nat): int
    requires pos < |d| && !ReadField(d, pos).Stop?
  {
    match ReadField(d, pos)
    case Take(_, next) => next
    case Back(_, target) => target
  }

  function Seen(f: Field, back: bool, o: Outcome): Outcome {
    if o.Finished? then Finished([f] + o.fields, o.backs + if back then {f.num} else {}) else o
  }

  /** The run from cursor `pos`, when the cursors in `visited` were visited before. */
  function RunFrom(d: Bytes, pos: int, visited: set<int>): Outcome
    decreases Remaining(d, visited)
  {
    if pos < 0 then Outside
    else if pos >= |d| then Finished([], {})
    else if pos in visited then Endless
    else if ReadField(d, pos).Stop? then Finished([], {})
    else
      OneFewer(d, visited, pos);
      Seen(FieldAt(d, pos), ReadField(d, pos).Back?, RunFrom(d, After(d, pos), visited + {pos}))
  }

  function Run(d: Bytes): Outcome { RunFrom(d, 0, {}) }

  /** The loop ends without leaving the buffer; lengths are C ints. */
  predicate LoopEnds(d: Bytes) { |d| < INT_LIMIT && Run(d).Finished? }

  /** The fields a loop that ends visits. */
  function Read(d: Bytes): seq<Field> { if Run(d).Finished? then Run(d).fields else [] }

  /** The numbers of the fields it visits that have a negative length. */
  function Backs(d: Bytes): set<nat> { if Run(d).Finished? then Run(d).backs else {} }

  // ---------------------------------------------------------------- one turn of a decoder

  /** The state of a loop that will end: `seen` is what it has visited, `visited` the cursors of that. */
  ghost predicate Going(d: Bytes, pos: int, visited: set<int>, seen: seq<Field>) {
    |d| < INT_LIMIT
    && var o := RunFrom(d, pos, visited);
       o.Finished? && seen + o.fields == Read(d) && o.backs <= Backs(d)
  }

  lemma Started(d: Bytes)
    requires LoopEnds(d)
    ensures Going(d, 0, {}, [])
  {
    assert [] + Read(d) == Read(d);
  }

  /** The loop condition fails. */
  lemma Over(d: Bytes, pos: int, visited: set<int>, seen: seq<Field>)
    ensures Going(d, pos, visited, seen) && pos >= |d| ==> seen == Read(d)
  {
    assert seen + [] == seen;
  }

  /** The bytes handed to a sub-decoder; one that is given a negative length reads nothing. */
  function Slice(d: Bytes, from: int, len: int): Bytes {
    if 0 <= from && 0 <= len && from + len <= |d| then d[from..from + len] else []
  }

  /** The value behind a tag, by the branch the code takes. */
  lemma ValueReadAs(d: Bytes, p: nat, wt: nat, num: nat)
    requires p <= |d| < INT_LIMIT && wt < 8
    ensures var s := ReadValue(d, p, wt, num);
            var next := SkipTo(d, p, wt);
            (next.None? <==> s.Stop?)
            && (s.Take? ==>
                  var f := s.f;
                  Some(s.next) == next && f.num == num && s.next <= |d|
                  && (f.FVarint? <==> wt == 0) && (f.FFixed32? <==> wt == 5) && (f.FBytes? <==> wt == 2)
                  && (wt == 0 ==> f.v == VarintVal(d, p))
                  && (wt == 5 ==> p + 4 <= |d| && f.word == FromLittleEndian(d[p..p + 4]))
                  && (wt == 2 ==> var (q, sz) := (VarintEnd(d, p), Int32(VarintVal(d, p)));
                                  0 <= sz && s.next == q + sz && f.body == Slice(d, q, sz)))
            && (s.Back? ==>
                  wt == 2 && s.num == num && Some(s.target) == next
                  && var (q, sz) := (VarintEnd(d, p), Int32(VarintVal(d, p)));
                     if sz < 0 then s.target == q + sz && Slice(d, q, sz) == [] else s.target < 0)
  {
  }

  /** One turn of a loop that will end. */
  lemma TurnKeepsGoing(d: Bytes, pos: int, visited: set<int>, seen: seq<Field>)
    requires Going(d, pos, visited, seen) && pos < |d|
    ensures 0 <= pos && pos !in visited && Remaining(d, visited + {pos}) < Remaining(d, visited)
    ensures if ReadField(d, pos).Stop? then seen == Read(d)
            else 0 <= After(d, pos) && Going(d, After(d, pos), visited + {pos}, seen + [FieldAt(d, pos)])
                 && (ReadField(d, pos).Back? ==> FieldAt(d, pos).num in Backs(d))
  {
    hide ReadField, FieldAt, After, Read, Backs, Remaining;
    OneFewer(d, visited, pos);
    if ReadField(d, pos).Stop? {
      assert seen + [] == seen;
    } else {
      var rest := RunFrom(d, After(d, pos), visited + {pos});
      ConcatAssoc(seen, [FieldAt(d, pos)], rest.fields);
    }
  }

  /** What one turn of a decoder's loop does, by the branch the code takes: it visits the next field of the
      message at a cursor it was not at before, or ends the loop with everything seen. */
  lemma Turn(d: Bytes, pos: int, visited: set<int>, seen: seq<Field>)
    requires Going(d, pos, visited, seen) && pos < |d|
    ensures 0 <= pos && pos !in visited && Remaining(d, visited + {pos}) < Remaining(d, visited)
    ensures var tag, p := VarintVal(d, pos), VarintEnd(d, pos);
            var wt, num := tag % 8, FieldNumber(tag);
            var next := SkipTo(d, p, wt);
            pos < p <= |d|
            && (next.None? ==> seen == Read(d))
            && (next.Some? ==>
                  !ReadField(d, pos).Stop?
                  && var f := FieldAt(d, pos);
                     Going(d, next.value, visited + {pos}, seen + [f])
                     && (f.FVarint? <==> wt == 0) && (f.FFixed32? <==> wt == 5) && (f.FBytes? <==> wt == 2)
                     && f.num == num
                     && (wt == 0 ==> f.v == VarintVal(d, p))
                     && (wt == 5 ==> p + 4 <= |d| && f.word == FromLittleEndian(d[p..p + 4]))
                     && (wt == 2 ==> var q, sz := VarintEnd(d, p), Int32(VarintVal(d, p));
                                     next.value == q + sz && f.body == Slice(d, q, sz)
                                     && (sz < 0 ==> num in Backs(d))))
  {
    hide SkipTo, ReadValue, VarintVal, VarintEnd, Int32, Read, Backs, Remaining, Slice, FromLittleEndian, Going;
    TurnKeepsGoing(d, pos, visited, seen);
    GoingFits(d, pos, visited, seen);
    var tag, p := VarintVal(d, pos), VarintEnd(d, pos);
    ValueReadAs(d, p, tag % 8, FieldNumber(tag));
  }

  lemma GoingFits(d: Bytes, pos: int, visited: set<int>, seen: seq<Field>)
    requires Going(d, pos, visited, seen)
    ensures |d| < INT_LIMIT
  {
  }

  // ---------------------------------------------------------------- well-behaved messages

  ghost predicate AllBefore(visited: set<int>, pos: int) { forall c :: c in visited ==> c < pos }

  lemma {:induction false} FitIsParse(d: Bytes, pos: nat, visited: set<int>)
    requires pos <= |d| && LengthsFit(d, pos) && AllBefore(visited, pos)
    ensures RunFrom(d, pos, visited) == Finished(Parse(d, pos), {})
    decreases |d| - pos
  {
    if pos < |d| {
      TakeKeepsCursor(d, pos);
      hide ReadField;
      var s := ReadField(d, pos);
      if s.Take? {
        assert AllBefore(visited + {pos}, s.next);
        FitIsParse(d, s.next, visited + {pos});
      }
    }
  }

  /** Where no length prefix is negative or overflows, the loop visits the message from front to back. */
  lemma FitIsRead(d: Bytes)
    requires LengthsFit(d, 0)
    ensures Run(d) == Finished(Parse(d, 0), {}) && Read(d) == Parse(d, 0) && Backs(d) == {}
    ensures |d| < INT_LIMIT ==> LoopEnds(d)
  {
    FitIsParse(d, 0, {});
  }

  /** A whole encoded message is visited field by field. */
  lemma ReadEncoded(fs: seq<Field>)
    requires AllWellFormed(fs) && |EncFields(fs)| < INT_LIMIT
    ensures LoopEnds(EncFields(fs)) && Read(EncFields(fs)) == fs && Backs(EncFields(fs)) == {}
  {
    hide EncFields, LengthsFit, Parse, Run;
    ParseEncoded(fs);
    FitIsRead(EncFields(fs));
  }

  // ---------------------------------------------------------------- when the loop ends

  /** The cursor before turn n, as long as the loop has not ended or left the buffer. */
  function Cursor(d: Bytes, n: nat): Option<int> {
    if n == 0 then Some(0)
    else
      var c := Cursor(d, n - 1);
      if c.None? || !(0 <= c.value < |d|) || ReadField(d, c.value).Stop? then None
      else Some(After(d, c.value))
  }

  /** The loop ends before turn n: the cursor is at the end of the buffer, or no field can be read there. */
  predicate EndsAt(d: Bytes, n: nat) {
    var c := Cursor(d, n);
    c.Some? && 0 <= c.value && (c.value >= |d| || ReadField(d, c.value).Stop?)
  }

  /** At turn n the loop reads in front of the buffer. */
  predicate LeavesAt(d: Bytes, n: nat) { Cursor(d, n).Some? && Cursor(d, n).value < 0 }

  /** Before turn n the loop is where it was before turn m. */
  predicate RepeatsAt(d: Bytes, m: nat, n: nat) {
    m < n && Cursor(d, n).Some? && 0 <= Cursor(d, n).value < |d| && Cursor(d, m) == Cursor(d, n)
  }

  /** After n turns at different cursors, what is still to come. */
  ghost predicate OnItsWay(d: Bytes, n: nat, visited: set<int>) {
    Cursor(d, n).Some?
    && forall c :: c in visited <==> exists i: nat :: i < n && Cursor(d, i) == Some(c)
  }

  lemma WasThere(d: Bytes, n: nat, visited: set<int>, c: int) returns (i: nat)
    requires OnItsWay(d, n, visited) && c in visited
    ensures i < n && Cursor(d, i) == Some(c)
  {
    i :| i < n && Cursor(d, i) == Some(c);
  }

  lemma OneTurn(d: Bytes, n: nat, visited: set<int>)
    requires OnItsWay(d, n, visited)
    requires var c := Cursor(d, n).value; 0 <= c < |d| && c !in visited && !ReadField(d, c).Stop?
    ensures var c := Cursor(d, n).value;
            Cursor(d, n + 1) == Some(After(d, c)) && OnItsWay(d, n + 1, visited + {c})
  {
    hide ReadField, After;
    var c := Cursor(d, n).value;
    assert Cursor(d, n + 1) == Some(After(d, c));
    forall x | x in visited + {c} ensures exists i: nat :: i < n + 1 && Cursor(d, i) == Some(x) {
      if x == c {
        assert n < n + 1 && Cursor(d, n) == Some(x);
      } else {
        var i := WasThere(d, n, visited, x);
        assert i < n + 1 && Cursor(d, i) == Some(x);
      }
    }
    forall x, i: nat | i < n + 1 && Cursor(d, i) == Some(x) ensures x in visited + {c} {
      assert i < n ==> x in visited;
    }
  }

  /** The outcome is borne out by the cursors. */
  lemma {:induction false} OutcomeShows(d: Bytes, n: nat, visited: set<int>)
    requires OnItsWay(d, n, visited)
    ensures var o := RunFrom(d, Cursor(d, n).value, visited);
            (o.Finished? ==> exists k :: EndsAt(d, k))
            && (o.Outside? ==> exists k :: LeavesAt(d, k))
            && (o.Endless? ==> exists i, k :: RepeatsAt(d, i, k))
    decreases Remaining(d, visited)
  {
    hide ReadField, FieldAt, After, Remaining;
    var c := Cursor(d, n).value;
    hide OnItsWay;
    if c < 0 {
      assert LeavesAt(d, n);
    } else if c >= |d| {
      assert EndsAt(d, n);
    } else if c in visited {
      var i := WasThere(d, n, visited, c);
      assert RepeatsAt(d, i, n);
    } else if ReadField(d, c).Stop? {
      assert EndsAt(d, n);
    } else {
      OneFewer(d, visited, c);
      OneTurn(d, n, visited);
      OutcomeShows(d, n + 1, visited + {c});
    }
  }

  /** Where there is a cursor there was one before every earlier turn, inside the buffer. */
  lemma {:induction false} EarlierCursor(d: Bytes, m: nat, n: nat)
    requires m < n && Cursor(d, n).Some?
    ensures Cursor(d, m).Some? && 0 <= Cursor(d, m).value < |d| && !ReadField(d, Cursor(d, m).value).Stop?
    decreases n
  {
    hide ReadField, After;
    if m < n - 1 { EarlierCursor(d, m, n - 1); }
  }

  /** From equal cursors the loop goes on equally. */
  lemma {:induction false} SameFuture(d: Bytes, m: nat, n: nat, k: nat)
    requires Cursor(d, m) == Cursor(d, n)
    ensures Cursor(d, m + k) == Cursor(d, n + k)
  {
    hide ReadField, After;
    if k > 0 { SameFuture(d, m, n, k - 1); }
  }

  /** A loop that repeats a cursor neither ends nor leaves the buffer. */
  lemma {:induction false} RepeatingGoesOn(d: Bytes, m: nat, n: nat, k: nat)
    requires RepeatsAt(d, m, n)
    ensures Cursor(d, k).Some? && 0 <= Cursor(d, k).value < |d| && !EndsAt(d, k) && !LeavesAt(d, k)
    decreases k
  {
    hide ReadField, After, Cursor;
    if k < n {
      EarlierCursor(d, k, n);
    } else if k == n {
      EarlierCursor(d, m, n);
    } else {
      RepeatingGoesOn(d, m, n, k - (n - m));
      SameFuture(d, m, n, k - n);
      assert m + (k - n) == k - (n - m) && n + (k - n) == k;
    }
  }

  /** The loop ends at one turn, or leaves the buffer at one turn, never both. */
  lemma LastTurnIsOne(d: Bytes, m: nat, n: nat)
    requires EndsAt(d, m) || LeavesAt(d, m)
    requires EndsAt(d, n) || LeavesAt(d, n)
    ensures m == n
  {
    hide ReadField, After, Cursor;
    if m < n {
      EarlierCursor(d, m, n);
    } else if n < m {
      EarlierCursor(d, n, m);
    }
  }

  /** For every byte string, in terms of the cursors the loop visits: it ends exactly when at some turn it is at the
      end of the buffer or cannot read a field, it leaves the buffer exactly when some cursor is negative, and it
      turns forever exactly when it comes back to a cursor. */
  lemma OutcomeIff(d: Bytes)
    ensures Run(d).Finished? <==> exists k :: EndsAt(d, k)
    ensures Run(d).Outside? <==> exists k :: LeavesAt(d, k)
    ensures Run(d).Endless? <==> exists i, k :: RepeatsAt(d, i, k)
  {
    hide ReadField, After, EndsAt, LeavesAt, RepeatsAt, RunFrom;
    assert OnItsWay(d, 0, {});
    OutcomeShows(d, 0, {});
    hide Cursor;
    if k :| EndsAt(d, k) { EndingIsNotElse(d, k); }
    if k :| LeavesAt(d, k) { LeavingIsNotElse(d, k); }
    if i, k :| RepeatsAt(d, i, k) { RepeatingIsNotElse(d, i, k); }
  }

  lemma EndingIsNotElse(d: Bytes, k: nat)
    requires EndsAt(d, k)
    ensures (forall n :: !LeavesAt(d, n)) && (forall m, n :: !RepeatsAt(d, m, n))
  {
    hide ReadField, After, RepeatsAt, Cursor;
    forall n ensures !LeavesAt(d, n) { if LeavesAt(d, n) { LastTurnIsOne(d, k, n); } }
    forall m, n ensures !RepeatsAt(d, m, n) { if RepeatsAt(d, m, n) { RepeatingGoesOn(d, m, n, k); } }
  }

  lemma LeavingIsNotElse(d: Bytes, k: nat)
    requires LeavesAt(d, k)
    ensures (forall n :: !EndsAt(d, n)) && (forall m, n :: !RepeatsAt(d, m, n))
  {
    hide ReadField, After, RepeatsAt, Cursor;
    forall n ensures !EndsAt(d, n) { if EndsAt(d, n) { LastTurnIsOne(d, k, n); } }
    forall m, n ensures !RepeatsAt(d, m, n) { if RepeatsAt(d, m, n) { RepeatingGoesOn(d, m, n, k); } }
  }

  lemma RepeatingIsNotElse(d: Bytes, i: nat, k: nat)
    requires RepeatsAt(d, i, k)
    ensures (forall n :: !EndsAt(d, n)) && (forall n :: !LeavesAt(d, n))
  {
    hide RepeatsAt, EndsAt, LeavesAt;
    forall n ensures !EndsAt(d, n) && !LeavesAt(d, n) { RepeatingGoesOn(d, i, k, n); }
  }

  /** The message that rewinds turns forever; the one with a length of -1 is read to its end. */
  lemma TwoNegativeLengths()
    ensures Run([0x12, 0xFA, 0xFF, 0xFF, 0xFF, 0x0F]) == Endless
    ensures Run([0x12, 0xFF, 0xFF, 0xFF, 0xFF, 0x0F]) == Finished([FBytes(2, [])], {2})
  {
    var d: Bytes := [0x12, 0xFA, 0xFF, 0xFF, 0xFF, 0x0F];
    var e: Bytes := [0x12, 0xFF, 0xFF, 0xFF, 0xFF, 0x0F];
    NegativePrefixRewinds();
    ShortNegativePrefixAdvances();
    hide ReadField;
    assert RunFrom(d, 0, {0}) == Endless;
    assert RunFrom(e, 5, {0}) == Finished([], {});
    assert RunFrom(d, 0, {}) == Seen(FBytes(2, []), true, RunFrom(d, 0, {} + {0}));
    assert RunFrom(e, 0, {}) == Seen(FBytes(2, []), true, RunFrom(e, 5, {} + {0}));
    assert {} + {0} == {0};
  }
}

/** What a list of protobuf fields means: for each field number, the last occurrence wins. */
module Fields {
  import opened Common
  import opened Wire
  import opened DecoderRun

  function LastVarint(fs: seq<Field>, num: nat): Option<nat> {
    if fs == [] then None
    else
      var f := fs[|fs| - 1];
      if f.FVarint? && f.num == num then Some(f.v) else LastVarint(fs[..|fs| - 1], num)
  }

  function LastWord(fs: seq<Field>, num: nat): Option<nat> {
    if fs == [] then None
    else
      var f := fs[|fs| - 1];
      if f.FFixed32? && f.num == num then Some(f.word) else LastWord(fs[..|fs| - 1], num)
  }

  function LastBody(fs: seq<Field>, num: nat): Option<Bytes> {
    if fs == [] then None
    else
      var f := fs[|fs| - 1];
      if f.FBytes? && f.num == num then Some(f.body) else LastBody(fs[..|fs| - 1], num)
  }

  /** The bodies of every occurrence of a length-delimited field, in order. */
  function Bodies(fs: seq<Field>, num: nat): seq<Bytes> {
    if fs == [] then []
    else
      var f := fs[|fs| - 1];
      Bodies(fs[..|fs| - 1], num) + if f.FBytes? && f.num == num then [f.body] else []
  }

  /** The fields of every occurrence of an embedded message, run together. */
  function SubFields(bodies: seq<Bytes>): seq<Field> {
    if bodies == [] then []
    else SubFields(bodies[..|bodies| - 1]) + Read(bodies[|bodies| - 1])
  }

  /** The loop over every embedded message carried under one of the given field numbers ends. */
  ghost predicate BodiesEnd(fs: seq<Field>, nums: set<nat>) {
    forall i :: 0 <= i < |fs| && fs[i].FBytes? && fs[i].num in nums ==> LoopEnds(fs[i].body)
  }

  function Sint(o: Option<nat>): Option<int> {
    if o.Some? then Some(PbZigzag(o.value)) else None
  }

  function Int(o: Option<nat>): Option<int> {
    if o.Some? then Some(Int32(o.value)) else None
  }

  function Uint(o: Option<nat>): Option<nat> {
    if o.Some? then Some(o.value % TWO_32) else None
  }

  // ---------------------------------------------------------------- one more field

  lemma Snoc(fs: seq<Field>, f: Field)
    ensures forall num :: LastVarint(fs + [f], num)
                       == if f.FVarint? && f.num == num then Some(f.v) else LastVarint(fs, num)
    ensures forall num :: LastWord(fs + [f], num)
                       == if f.FFixed32? && f.num == num then Some(f.word) else LastWord(fs, num)
    ensures forall num :: LastBody(fs + [f], num)
                       == if f.FBytes? && f.num == num then Some(f.body) else LastBody(fs, num)
    ensures forall num :: Bodies(fs + [f], num)
                       == if f.FBytes? && f.num == num then Bodies(fs, num) + [f.body] else Bodies(fs, num)
  {
    assert (fs + [f])[..|fs + [f]| - 1] == fs;
  }

  /** The same for one field number. */
  lemma SnocAt(fs: seq<Field>, f: Field, num: nat)
    ensures LastVarint(fs + [f], num) == if f.FVarint? && f.num == num then Some(f.v) else LastVarint(fs, num)
    ensures LastWord(fs + [f], num) == if f.FFixed32? && f.num == num then Some(f.word) else LastWord(fs, num)
    ensures LastBody(fs + [f], num) == if f.FBytes? && f.num == num then Some(f.body) else LastBody(fs, num)
    ensures Bodies(fs + [f], num) == if f.FBytes? && f.num == num then Bodies(fs, num) + [f.body] else Bodies(fs, num)
  {
    assert (fs + [f])[..|fs + [f]| - 1] == fs;
  }

  lemma SubFieldsSnoc(bodies: seq<Bytes>, b: Bytes)
    ensures SubFields(bodies + [b]) == SubFields(bodies) + Read(b)
  {
    assert (bodies + [b])[..|bodies|] == bodies;
  }

  // ---------------------------------------------------------------- last one wins

  /** In a concatenation the later list wins wherever it speaks. */
  lemma {:induction false} LastWins(a: seq<Field>, b: seq<Field>, num: nat)
    ensures LastVarint(a + b, num) == OrElse(LastVarint(b, num), LastVarint(a, num))
    ensures LastWord(a + b, num) == OrElse(LastWord(b, num), LastWord(a, num))
    ensures LastBody(a + b, num) == OrElse(LastBody(b, num), LastBody(a, num))
    ensures Bodies(a + b, num) == Bodies(a, num) + Bodies(b, num)
    decreases |b|
  {
    if b == [] {
      assert a + b == a;
    } else {
      var front, f := b[..|b| - 1], b[|b| - 1];
      assert a + b == (a + front) + [f] && b == front + [f];
      LastWins(a, front, num);
      Snoc(a + front, f);
      Snoc(front, f);
    }
  }

  /** A field that carries another number or wire type can be dropped without changing what is found. */
  lemma Irrelevant(a: seq<Field>, f: Field, b: seq<Field>, num: nat)
    ensures !(f.FVarint? && f.num == num) ==> LastVarint(a + [f] + b, num) == LastVarint(a + b, num)
    ensures !(f.FFixed32? && f.num == num) ==> LastWord(a + [f] + b, num) == LastWord(a + b, num)
    ensures !(f.FBytes? && f.num == num) ==> LastBody(a + [f] + b, num) == LastBody(a + b, num)
    ensures !(f.FBytes? && f.num == num) ==> Bodies(a + [f] + b, num) == Bodies(a + b, num)
  {
    LastWins(a + [f], b, num);
    LastWins(a, b, num);
    Snoc(a, f);
  }

  /** Where the loop of a decoder starts, with nothing seen. */
  lemma NothingSeen()
    ensures forall num :: LastVarint([], num) == None && LastWord([], num) == None
                          && LastBody([], num) == None && Bodies([], num) == []
  {
  }
}

/** The getc and putc fast paths of freebsd2/include/stdio.h: `__sgetc`, the
    inline `__sputc` and the macro `__sputc`.

    `File` is the struct the macros update, `Stream` its value, and each `...Step`
    function the value after one call and how the call ended.
 */
module Stdio {

  // An unsigned char
  type Byte = x: int | 0 <= x < 256

  const NEWLINE: Byte := 10
  const INT_MAX := 0x7fff_ffff
  const INT_MIN := -0x8000_0000

  const SLBF: bv16 := 0x0001
  const SRD: bv16 := 0x0004
  const SWR: bv16 := 0x0008

  // Conversion of an int to a character
  function CharOf(c: int): Byte {
    c % 256
  }

  // It is the one character that differs from c by a multiple of 256, so a character
  // is its own.
  lemma CharOfIsLowByte(c: int, b: Byte)
    ensures CharOf(c) == b <==> (c - b) % 256 == 0
  {}

  // p counts from the base of the buffer; buf is the buffer, of size |buf|.  The
  // three flags are the ones the macros' invariant speaks of.
  datatype Stream = Stream(
    p: int, r: int, w: int, lbfsize: int,
    lbf: bool, rd: bool, wr: bool,
    buf: seq<Byte>)
  {
    // (_flags&(__SLBF|__SWR)) == (__SLBF|__SWR)
    predicate LineBuffered() { lbf && wr }

    // The invariant the header states over the stdio state variables
    predicate Documented() {
      && lbfsize == (if LineBuffered() then -|buf| else 0)
      && (rd ==> w == 0)
      && (wr ==> r == 0)
      && !(rd && wr)
    }

    // What the counters count: characters left in the buffer, room left in it,
    // or, line buffered, room used up as a negative number
    predicate Counted() {
      && 0 <= p <= |buf| <= INT_MAX
      && (rd ==> 0 <= r && p + r <= |buf|)
      && (wr && !LineBuffered() ==> 0 <= w && p + w <= |buf|)
      && (LineBuffered() ==> -|buf| <= w <= 0 && p <= -w)
      && (!rd ==> r == 0)
      && (!wr ==> w == 0)
    }

    predicate Valid() {
      Documented() && Counted()
    }

    // A store at p is made only inside the buffer.
    predicate Storable() {
      w - 1 >= 0 || w - 1 >= lbfsize ==> 0 <= p < |buf|
    }

    predicate Fetchable() {
      r - 1 >= 0 ==> 0 <= p < |buf|
    }
  }

  // How a call ends: on the fast path with a value, or by calling the slow path
  datatype Outcome =
    | Fast(ret: int)
    | Swbuf(c: int)
    | Srget

  function GetStep(s: Stream): (Stream, Outcome)
    requires s.Fetchable()
  {
    if s.r - 1 < 0 then (s.(r := s.r - 1), Srget)
    else (s.(r := s.r - 1, p := s.p + 1), Fast(s.buf[s.p]))
  }

  // The inline function: the newline test looks at the argument.
  function PutStep(s: Stream, c: int): (Stream, Outcome)
    requires s.Storable()
  {
    var w := s.w - 1;
    if w >= 0 || (w >= s.lbfsize && CharOf(c) != NEWLINE) then
      (s.(w := w, buf := s.buf[s.p := CharOf(c)], p := s.p + 1), Fast(CharOf(c)))
    else
      (s.(w := w), Swbuf(c))
  }

  // The macro: it stores first and tests the stored byte.
  function PutMacroStep(s: Stream, c: int): (Stream, Outcome)
    requires s.Storable()
  {
    var w := s.w - 1;
    if w < 0 then
      if w >= s.lbfsize then
        var t := s.(w := w, buf := s.buf[s.p := CharOf(c)]);
        if t.buf[t.p] != NEWLINE then (t.(p := t.p + 1), Fast(t.buf[t.p]))
        else (t, Swbuf(NEWLINE))
      else (s.(w := w), Swbuf(c))
    else
      (s.(w := w, buf := s.buf[s.p := CharOf(c)], p := s.p + 1), Fast(CharOf(c)))
  }

  class File {
    var p: int          // _p - _bf._base
    var r: int
    var w: int
    const flags: bv16
    const bf: array<Byte>
    const lbfsize: int

    constructor (bf: array<Byte>, flags: bv16, p: int, r: int, w: int, lbfsize: int)
      ensures this.bf == bf
      ensures View() == Stream(p, r, w, lbfsize, flags & SLBF != 0, flags & SRD != 0, flags & SWR != 0, bf[..])
    {
      this.bf, this.flags, this.lbfsize := bf, flags, lbfsize;
      this.p, this.r, this.w := p, r, w;
    }

    function View(): Stream
      reads this, bf
    {
      Stream(p, r, w, lbfsize, flags & SLBF != 0, flags & SRD != 0, flags & SWR != 0, bf[..])
    }

    // What the flags word says, by the header's values: line buffered is one
    // comparison with both __SLBF and __SWR.
    lemma FlagTests()
      ensures View().LineBuffered() <==> flags & 0x0009 == 0x0009
      ensures View().lbf <==> flags & 0x0001 != 0
      ensures View().rd <==> flags & 0x0004 != 0
      ensures View().wr <==> flags & 0x0008 != 0
    {}

    // __sgetc
    method Sgetc() returns (o: Outcome)
      requires View().Fetchable() && INT_MIN < r
      modifies this`p, this`r
      ensures (View(), o) == GetStep(old(View()))
    {
      r := r - 1;
      if r < 0 {
        o := Srget;
      } else {
        o := Fast(bf[p]);
        p := p + 1;
      }
    }

    // __sputc, the inline function
    method Sputc(c: int) returns (o: Outcome)
      requires View().Storable() && INT_MIN < w
      modifies this`p, this`w, bf
      ensures (View(), o) == PutStep(old(View()), c)
      ensures o.Fast? ==>
                && 0 <= old(p) < bf.Length && p == old(p) + 1
                && bf[old(p)] == o.ret && 0 <= o.ret < 256 && (c - o.ret) % 256 == 0
    {
      w := w - 1;
      if w >= 0 || (w >= lbfsize && CharOf(c) != NEWLINE) {
        bf[p] := CharOf(c);
        o := Fast(bf[p]);
        p := p + 1;
      } else {
        o := Swbuf(c);
      }
    }

    // __sputc, the macro
    method SputcMacro(c: int) returns (o: Outcome)
      requires View().Storable() && INT_MIN < w
      modifies this`p, this`w, bf
      ensures (View(), o) == PutMacroStep(old(View()), c)
      ensures o.Fast? ==>
                && 0 <= old(p) < bf.Length && p == old(p) + 1
                && bf[old(p)] == o.ret && 0 <= o.ret < 256 && (c - o.ret) % 256 == 0
    {
      w := w - 1;
      if w < 0 {
        if w >= lbfsize {
          bf[p] := CharOf(c);
          if bf[p] != NEWLINE {
            o := Fast(bf[p]);
            p := p + 1;
          } else {
            o := Swbuf(NEWLINE);
          }
        } else {
          o := Swbuf(c);
        }
      } else {
        bf[p] := CharOf(c);
        o := Fast(bf[p]);
        p := p + 1;
      }
    }
  }

  // A well-formed stream meets what the macros ask for, in every mode: no store or
  // fetch outside the buffer, no counter outside the range of a 32-bit int, before or
  // after it is decremented.
  lemma ValidIsSafe(s: Stream)
    requires s.Valid()
    ensures s.Storable() && s.Fetchable()
    ensures -2147483648 <= s.w - 1 && s.w <= 2147483647
    ensures -2147483648 <= s.r - 1 && s.r <= 2147483647
    ensures INT_MIN < s.w && INT_MIN < s.r
  {}

  // How many puts the counter lets onto the fast path before __swbuf is called for want
  // of room
  function Room(s: Stream): int {
    if s.LineBuffered() then s.w + |s.buf| else s.w
  }

  predicate InBuffer(s: Stream, q: int) {
    0 <= q < |s.buf|
  }

  // On a writing stream the counters ask no more than that all of those be stored
  // inside the buffer, and that the counter start from its own side of zero.
  lemma CountedIffInBounds(s: Stream)
    requires s.Documented() && s.wr && 0 <= s.p <= |s.buf| <= 2147483647
    ensures s.Counted() <==>
            && (if s.LineBuffered() then -|s.buf| <= s.w <= 0 else 0 <= s.w)
            && forall q :: s.p <= q < s.p + Room(s) ==> InBuffer(s, q)
  {
    if Room(s) > 0 && forall q :: s.p <= q < s.p + Room(s) ==> InBuffer(s, q) {
      assert InBuffer(s, s.p + Room(s) - 1);
    }
  }

  // The ints are exactly that range.
  lemma IntRange(x: int)
    ensures INT_MIN <= x <= INT_MAX <==> -2147483648 <= x <= 2147483647
  {}
}

/** The line buffer of drivers/terminal.c: a ring of 128 bytes between the keyboard
    interrupt, which types and erases, and `terminal_read`, which takes lines out.

    A read looks for a newline with interrupts off and takes the line out with
    interrupts on.  The two halves are separate steps here, so keys can fall between. */
module Terminal {
  const TERBUF_SIZE: nat := 128
  const NEWLINE: nat := 10
  const RETURN: nat := 13

  // ---------- the bounded queue ----------

  function Typed(q: seq<nat>, c: nat): seq<nat> {
    if c == 0 then q
    else (if |q| == TERBUF_SIZE then q[1..] else q) + [if c == RETURN then NEWLINE else c]
  }

  function Erased(q: seq<nat>): seq<nat> {
    if q == [] then q else q[..|q| - 1]
  }

  predicate EndsLine(c: nat) {
    c == NEWLINE || c == RETURN
  }

  /** The first `n` characters are a line: its end is at the last one only. */
  predicate IsLine(q: seq<nat>, n: nat) {
    0 < n <= |q| && EndsLine(q[n - 1]) && forall i :: 0 <= i < n - 1 ==> !EndsLine(q[i])
  }

  lemma {:induction false} OneFirstLine(q: seq<nat>, m: nat, n: nat)
    requires IsLine(q, m) && IsLine(q, n)
    ensures m == n
  {
    assert EndsLine(q[m - 1]) && EndsLine(q[n - 1]);
  }

  predicate NoLine(q: seq<nat>) {
    forall i :: 0 <= i < |q| ==> !EndsLine(q[i])
  }

  /** Length of the first line, 0 when there is none. */
  function LineLength(q: seq<nat>): (n: nat)
    ensures if n == 0 then NoLine(q) else IsLine(q, n)
  {
    LineFrom(q, 0)
  }

  function LineFrom(q: seq<nat>, i: nat): (n: nat)
    requires i <= |q| && forall j :: 0 <= j < i ==> !EndsLine(q[j])
    ensures if n == 0 then NoLine(q) else IsLine(q, n)
    decreases |q| - i
  {
    if i == |q| then 0 else if EndsLine(q[i]) then i + 1 else LineFrom(q, i + 1)
  }

  /** What a read of at most `nbytes` takes. */
  function Taken(q: seq<nat>, nbytes: nat): (k: nat)
    ensures k <= |q|
  {
    Min(LineLength(q), Min(nbytes, TERBUF_SIZE))
  }

  /** `k` is the least of three numbers. */
  predicate LeastOf(k: nat, a: nat, b: nat, c: nat) {
    k <= a && k <= b && k <= c && (k == a || k == b || k == c)
  }

  /** A read stops at the first line end: with a line of `n` characters in front it takes
      the least of that, what is asked for and the size of the buffer; without a line,
      nothing. */
  lemma {:induction false} TakenIs(q: seq<nat>, nbytes: nat, n: nat)
    ensures IsLine(q, n) ==> LeastOf(Taken(q, nbytes), n, nbytes, TERBUF_SIZE)
    ensures NoLine(q) ==> Taken(q, nbytes) == 0
  {
    if IsLine(q, n) {
      assert EndsLine(q[n - 1]);
      OneFirstLine(q, n, LineLength(q));
    }
  }

  function Min(a: nat, b: nat): nat {
    if a < b then a else b
  }

  // ---------- runs ----------

  /** A read is two events: the search that finds a line, and later the removal of as
      many characters as it found. */
  datatype Event = Key(c: nat) | Back | Find(nbytes: nat) | Take

  /** Characters that have left at the front, those still queued, and how many the last
      search found. */
  datatype Ledger = Ledger(gone: seq<nat>, queue: seq<nat>, found: nat) {
    function Text(): seq<nat> {
      gone + queue
    }
  }

  /** As many characters are left as are taken out. */
  predicate Ready(l: Ledger, e: Event) {
    e.Take? ==> l.found <= |l.queue|
  }

  function Step(l: Ledger, e: Event): Ledger
    requires Ready(l, e)
  {
    match e
    case Key(c) =>
      if c != 0 && |l.queue| == TERBUF_SIZE then l.(gone := l.gone + [l.queue[0]], queue := Typed(l.queue, c))
      else l.(queue := Typed(l.queue, c))
    case Back => l.(queue := Erased(l.queue))
    case Find(nbytes) => l.(found := Taken(l.queue, nbytes))
    case Take => Ledger(l.gone + l.queue[..l.found], l.queue[l.found..], 0)
  }

  /** What a search records, in terms of the line it finds. */
  lemma {:induction false} FindRecords(l: Ledger, nbytes: nat, n: nat)
    ensures IsLine(l.queue, n) ==> LeastOf(Step(l, Find(nbytes)).found, n, nbytes, TERBUF_SIZE)
    ensures NoLine(l.queue) ==> Step(l, Find(nbytes)).found == 0
    ensures Step(l, Find(nbytes)).queue == l.queue && Step(l, Find(nbytes)).gone == l.gone
  {
    TakenIs(l.queue, nbytes, n);
  }

  /** Throughout the run there is enough to take out. */
  predicate Covered(l: Ledger, es: seq<Event>)
    decreases |es|, 0
  {
    es == [] || (Covered(l, es[..|es| - 1]) && Ready(Run(l, es[..|es| - 1]), es[|es| - 1]))
  }

  function Run(l: Ledger, es: seq<Event>): Ledger
    requires Covered(l, es)
    decreases |es|, 1
  {
    if es == [] then l else Step(Run(l, es[..|es| - 1]), es[|es| - 1])
  }

  /** All the text, as an editor without a buffer has it: keys add at the end, an erase
      takes the last character, unless it has left, and reads change nothing. */
  function Edited(l: Ledger, es: seq<Event>): seq<nat>
    requires Covered(l, es)
  {
    if es == [] then l.Text()
    else
      var text := Edited(l, es[..|es| - 1]);
      match es[|es| - 1]
      case Key(c) => text + Typed([], c)
      case Back => if Run(l, es[..|es| - 1]).queue == [] then text else Erased(text)
      case _ => text
  }

  /** Characters leave in the order they came: over every run, what has left and what
      is queued is together the edited text, each character once. */
  lemma {:induction false} InOrder(l: Ledger, es: seq<Event>)
    requires |l.queue| <= TERBUF_SIZE && Covered(l, es)
    ensures |Run(l, es).queue| <= TERBUF_SIZE
    ensures Run(l, es).Text() == Edited(l, es)
  {
    if es != [] {
      var n := |es| - 1;
      InOrder(l, es[..n]);
      StepText(Run(l, es[..n]), es[n]);
    }
  }

  lemma {:induction false} StepText(l: Ledger, e: Event)
    requires |l.queue| <= TERBUF_SIZE && Ready(l, e)
    ensures |Step(l, e).queue| <= TERBUF_SIZE
    ensures e.Key? ==> Step(l, e).Text() == l.Text() + Typed([], e.c)
    ensures e.Find? || e.Take? ==> Step(l, e).Text() == l.Text()
    ensures e.Back? ==> Step(l, e).Text() == if l.queue == [] then l.Text() else Erased(l.Text())
  {
  }

  // ---------- what the reader gets ----------

  /** A character that leaves is read, or makes room in a full buffer. */
  datatype Leaver = Leaver(c: nat, read: bool)

  function Chars(xs: seq<Leaver>): seq<nat> {
    if xs == [] then [] else Chars(xs[..|xs| - 1]) + [xs[|xs| - 1].c]
  }

  function Reads(xs: seq<Leaver>): seq<nat> {
    if xs == [] then []
    else Reads(xs[..|xs| - 1]) + if xs[|xs| - 1].read then [xs[|xs| - 1].c] else []
  }

  function Mark(s: seq<nat>): seq<Leaver> {
    seq(|s|, i requires 0 <= i < |s| => Leaver(s[i], true))
  }

  /** What a step returns to a reader. */
  function Out(l: Ledger, e: Event): seq<nat>
    requires Ready(l, e)
  {
    if e.Take? then l.queue[..l.found] else []
  }

  /** What leaves in a step. */
  function Leavers(l: Ledger, e: Event): seq<Leaver>
    requires Ready(l, e)
  {
    if Overflows(l, e) then [Leaver(l.queue[0], false)] else Mark(Out(l, e))
  }

  predicate Overflows(l: Ledger, e: Event) {
    e.Key? && e.c != 0 && |l.queue| == TERBUF_SIZE
  }

  /** What the reads of a run return, one after the other. */
  function Output(l: Ledger, es: seq<Event>): seq<nat>
    requires Covered(l, es)
  {
    if es == [] then [] else Output(l, es[..|es| - 1]) + Out(Run(l, es[..|es| - 1]), es[|es| - 1])
  }

  /** Everything that leaves in a run. */
  function Departed(l: Ledger, es: seq<Event>): seq<Leaver>
    requires Covered(l, es)
  {
    if es == [] then [] else Departed(l, es[..|es| - 1]) + Leavers(Run(l, es[..|es| - 1]), es[|es| - 1])
  }

  lemma {:induction false} LeaverSums(a: seq<Leaver>, b: seq<Leaver>)
    ensures Chars(a + b) == Chars(a) + Chars(b) && Reads(a + b) == Reads(a) + Reads(b)
  {
    if b == [] {
      assert a + b == a;
    } else {
      var n := |b| - 1;
      assert (a + b)[..|a + b| - 1] == a + b[..n];
      LeaverSums(a, b[..n]);
    }
  }

  lemma {:induction false} Marked(s: seq<nat>)
    ensures Chars(Mark(s)) == s && Reads(Mark(s)) == s
  {
    if s != [] {
      var n := |s| - 1;
      assert Mark(s)[..n] == Mark(s[..n]);
      Marked(s[..n]);
      assert s == s[..n] + [s[n]];
    }
  }

  lemma {:induction false} StepLeavers(l: Ledger, e: Event)
    requires Ready(l, e)
    ensures Step(l, e).gone == l.gone + Chars(Leavers(l, e)) && Reads(Leavers(l, e)) == Out(l, e)
  {
    if Overflows(l, e) {
      assert Leavers(l, e)[..0] == [];
    } else {
      Marked(Out(l, e));
    }
  }

  /** Over every run the reader gets, in order, exactly the characters that leave and
      were not pushed out of a full buffer. */
  lemma {:induction false} ReadsAccount(l: Ledger, es: seq<Event>)
    requires Covered(l, es)
    ensures Run(l, es).gone == l.gone + Chars(Departed(l, es))
    ensures Output(l, es) == Reads(Departed(l, es))
  {
    if es != [] {
      var n := |es| - 1;
      var before := Run(l, es[..n]);
      ReadsAccount(l, es[..n]);
      StepAccount(before, es[n], l.gone, Departed(l, es[..n]));
    }
  }

  lemma {:induction false} StepAccount(l: Ledger, e: Event, gone: seq<nat>, d: seq<Leaver>)
    requires Ready(l, e) && l.gone == gone + Chars(d)
    ensures Step(l, e).gone == gone + Chars(d + Leavers(l, e))
    ensures Reads(d + Leavers(l, e)) == Reads(d) + Out(l, e)
  {
    StepLeavers(l, e);
    LeaverSums(d, Leavers(l, e));
    assert gone + (Chars(d) + Chars(Leavers(l, e))) == gone + Chars(d) + Chars(Leavers(l, e));
  }

  /** Nothing is typed into a full buffer. */
  predicate Roomy(l: Ledger, es: seq<Event>)
    requires Covered(l, es)
  {
    es == [] || (Roomy(l, es[..|es| - 1]) && !Overflows(Run(l, es[..|es| - 1]), es[|es| - 1]))
  }

  /** More leaves than is read exactly when something is pushed out. */
  lemma {:induction false} LossCount(l: Ledger, es: seq<Event>)
    requires Covered(l, es)
    ensures |Reads(Departed(l, es))| <= |Chars(Departed(l, es))|
    ensures |Reads(Departed(l, es))| == |Chars(Departed(l, es))| <==> Roomy(l, es)
  {
    if es != [] {
      var n := |es| - 1;
      var before := Run(l, es[..n]);
      LossCount(l, es[..n]);
      LeaverSums(Departed(l, es[..n]), Leavers(before, es[n]));
      Marked(Out(before, es[n]));
      if Overflows(before, es[n]) { assert Leavers(before, es[n])[..0] == []; }
    }
  }

  /** The lines returned and the queue are together the edited text if and only if
      nothing was typed into a full buffer. */
  lemma {:induction false} NothingLost(l: Ledger, es: seq<Event>)
    requires |l.queue| <= TERBUF_SIZE && Covered(l, es)
    ensures l.gone + Output(l, es) + Run(l, es).queue == Edited(l, es) <==> Roomy(l, es)
  {
    InOrder(l, es);
    ReadsAccount(l, es);
    LossCount(l, es);
    var gone, out, chars, queue := l.gone, Output(l, es), Chars(Departed(l, es)), Run(l, es).queue;
    assert |gone + out + queue| == |gone| + |out| + |queue| && |Edited(l, es)| == |gone| + |chars| + |queue|;
    if Roomy(l, es) { SameWhenAll(Departed(l, es)); }
  }

  lemma {:induction false} SameWhenAll(xs: seq<Leaver>)
    ensures |Reads(xs)| <= |Chars(xs)|
    ensures |Reads(xs)| == |Chars(xs)| ==> Reads(xs) == Chars(xs)
  {
    if xs != [] { SameWhenAll(xs[..|xs| - 1]); }
  }

  // ---------- keys between the two halves of a read ----------

  predicate OnlyKeys(es: seq<Event>) {
    forall i :: 0 <= i < |es| ==> es[i].Key? || es[i].Back?
  }

  function Struck(q: seq<nat>, e: Event): seq<nat> {
    match e
    case Key(c) => Typed(q, c)
    case Back => Erased(q)
    case _ => q
  }

  /** The queue after some keys. */
  function Pressed(q: seq<nat>, es: seq<Event>): seq<nat> {
    if es == [] then q else Struck(Pressed(q, es[..|es| - 1]), es[|es| - 1])
  }

  lemma {:induction false} KeysRun(l: Ledger, es: seq<Event>)
    requires OnlyKeys(es)
    ensures Covered(l, es) && Run(l, es).queue == Pressed(l.queue, es) && Run(l, es).found == l.found
  {
    if es != [] { KeysRun(l, es[..|es| - 1]); }
  }

  /** A run can go on where another ends. */
  lemma {:induction false} RunOn(l: Ledger, a: seq<Event>, b: seq<Event>)
    requires Covered(l, a)
    ensures Covered(l, a + b) <==> Covered(Run(l, a), b)
    ensures Covered(l, a + b) ==> Run(l, a + b) == Run(Run(l, a), b)
  {
    if b == [] {
      assert a + b == a;
    } else {
      var n := |b| - 1;
      assert (a + b)[..|a + b| - 1] == a + b[..n];
      RunOn(l, a, b[..n]);
    }
  }

  /** A read with keys between its halves is covered if and only if they leave as many
      characters as the search found. */
  lemma {:induction false} ReadCovered(l: Ledger, nbytes: nat, keys: seq<Event>)
    requires OnlyKeys(keys)
    ensures Covered(l, [Find(nbytes)] + keys + [Take]) <==> Taken(l.queue, nbytes) <= |Pressed(l.queue, keys)|
  {
    var find := [Find(nbytes)];
    RunOne(l, Find(nbytes));
    KeysRun(Run(l, find), keys);
    RunOn(l, find, keys);
    RunOn(l, find + keys, [Take]);
    RunOne(Run(l, find + keys), Take);
  }

  lemma {:induction false} RunNext(l: Ledger, es: seq<Event>, n: nat)
    requires n < |es| && Covered(l, es[..n])
    ensures Covered(l, es[..n + 1]) <==> Ready(Run(l, es[..n]), es[n])
    ensures Covered(l, es[..n + 1]) ==>
              && Run(l, es[..n + 1]) == Step(Run(l, es[..n]), es[n])
              && Output(l, es[..n + 1]) == Output(l, es[..n]) + Out(Run(l, es[..n]), es[n])
  {
    assert es[..n + 1][..n] == es[..n];
  }

  lemma {:induction false} RunOne(l: Ledger, e: Event)
    ensures Covered(l, [e]) <==> Ready(l, e)
    ensures Ready(l, e) ==> Run(l, [e]) == Step(l, e)
  {
    var none: seq<Event> := [e][..0];
    assert none == [] && Covered(l, none) && Run(l, none) == l;
  }

  /** A key that leaves the first `k` of `n` characters alone. */
  predicate Calm(n: nat, e: Event, k: nat) {
    match e
    case Key(c) => c != 0 ==> n < TERBUF_SIZE
    case Back => k < n
    case _ => false
  }

  /** Keys that leave the first `k` characters alone: none into a full buffer, none
      erased below `k`. */
  predicate Quiet(q: seq<nat>, es: seq<Event>, k: nat) {
    es == [] || (Quiet(q, es[..|es| - 1], k) && Calm(|Pressed(q, es[..|es| - 1])|, es[|es| - 1], k))
  }

  /** A queued character with its arrival number. */
  datatype Item = Item(c: nat, at: nat)

  /** The queue with arrival numbers, and the next number. */
  datatype Arrivals = Arrivals(queue: seq<Item>, next: nat)

  function Numbered(q: seq<nat>): Arrivals {
    Arrivals(seq(|q|, i requires 0 <= i < |q| => Item(q[i], i)), |q|)
  }

  function Arrive(s: Arrivals, e: Event): Arrivals {
    match e
    case Key(c) =>
      if c == 0 then s
      else
        var rest := if |s.queue| == TERBUF_SIZE then s.queue[1..] else s.queue;
        Arrivals(rest + [Item(if c == RETURN then NEWLINE else c, s.next)], s.next + 1)
    case Back => if s.queue == [] then s else s.(queue := s.queue[..|s.queue| - 1])
    case _ => s
  }

  function ArriveAll(s: Arrivals, es: seq<Event>): Arrivals {
    if es == [] then s else Arrive(ArriveAll(s, es[..|es| - 1]), es[|es| - 1])
  }

  function Plain(s: seq<Item>): seq<nat> {
    seq(|s|, i requires 0 <= i < |s| => s[i].c)
  }

  /** The numbers rise along the queue, and at least `n` have been given out. */
  predicate Rising(s: Arrivals, n: nat) {
    && n <= s.next && |s.queue| <= TERBUF_SIZE
    && (forall i :: 0 <= i < |s.queue| ==> s.queue[i].at < s.next)
    && (forall i, j :: 0 <= i < j < |s.queue| ==> s.queue[i].at < s.queue[j].at)
  }

  /** The first `k` characters are those of `q`, the very same ones. */
  predicate Front(s: Arrivals, q: seq<nat>, k: nat) {
    k <= |q| && k <= |s.queue| && forall i :: 0 <= i < k ==> s.queue[i] == Item(q[i], i)
  }

  lemma {:induction false} ArriveKeeps(s: Arrivals, e: Event, n: nat)
    requires Rising(s, n)
    ensures Rising(Arrive(s, e), n)
    ensures Plain(Arrive(s, e).queue) == Struck(Plain(s.queue), e)
  {
    if e.Key? {
      var rest := if |s.queue| == TERBUF_SIZE then s.queue[1..] else s.queue;
      PlainParts(s.queue);
      PlainMore(rest, Item(if e.c == RETURN then NEWLINE else e.c, s.next));
    } else {
      PlainParts(s.queue);
    }
  }

  lemma {:induction false} PlainParts(s: seq<Item>)
    ensures s != [] ==> Plain(s[1..]) == Plain(s)[1..] && Plain(s[..|s| - 1]) == Plain(s)[..|s| - 1]
  {
  }

  lemma {:induction false} PlainMore(s: seq<Item>, x: Item)
    ensures Plain(s + [x]) == Plain(s) + [x.c]
  {
  }

  /** Numbers are a ghost of the queue: without them it is the same. */
  lemma {:induction false} ArrivalsRun(q: seq<nat>, es: seq<Event>)
    requires |q| <= TERBUF_SIZE && OnlyKeys(es)
    ensures Rising(ArriveAll(Numbered(q), es), |q|)
    ensures Plain(ArriveAll(Numbered(q), es).queue) == Pressed(q, es)
  {
    if es == [] {
      assert Plain(Numbered(q).queue) == q;
    } else {
      var n := |es| - 1;
      ArrivalsRun(q, es[..n]);
      ArriveKeeps(ArriveAll(Numbered(q), es[..n]), es[n], |q|);
    }
  }

  /** What is lost at the front does not come back: a new character has a new number. */
  lemma {:induction false} FrontStep(s: Arrivals, q: seq<nat>, e: Event, k: nat)
    requires 0 < k <= |q| && Rising(s, |q|) && (e.Key? || e.Back?)
    ensures Front(Arrive(s, e), q, k) <==> Front(s, q, k) && Calm(|s.queue|, e, k)
  {
    var s' := Arrive(s, e);
    if Front(s', q, k) && e.Key? && e.c != 0 {
      assert s'.queue[|s'.queue| - 1].at == s.next >= k;
      assert s'.queue[k - 1].at == k - 1 && s'.queue[0].at == 0;
    }
  }

  /** Exactly which keys between the search and the removal leave the first `k`
      characters in place, as the characters they are. */
  lemma {:induction false} LineStays(q: seq<nat>, es: seq<Event>, k: nat)
    requires 0 < k <= |q| <= TERBUF_SIZE && OnlyKeys(es)
    ensures Front(ArriveAll(Numbered(q), es), q, k) <==> Quiet(q, es, k)
    ensures Quiet(q, es, k) ==> k <= |Pressed(q, es)| <= TERBUF_SIZE && Pressed(q, es)[..k] == q[..k]
  {
    FrontRun(q, es, k);
    ArrivalsRun(q, es);
    if Quiet(q, es, k) {
      var s := ArriveAll(Numbered(q), es);
      forall i | 0 <= i < k ensures Plain(s.queue)[i] == q[i] {
        assert s.queue[i] == Item(q[i], i);
      }
    }
  }

  lemma {:induction false} FrontRun(q: seq<nat>, es: seq<Event>, k: nat)
    requires 0 < k <= |q| <= TERBUF_SIZE && OnlyKeys(es)
    ensures Front(ArriveAll(Numbered(q), es), q, k) <==> Quiet(q, es, k)
  {
    if es != [] {
      var n := |es| - 1;
      var s := ArriveAll(Numbered(q), es[..n]);
      FrontRun(q, es[..n], k);
      ArrivalsRun(q, es[..n]);
      assert |s.queue| == |Pressed(q, es[..n])|;
      FrontStep(s, q, es[n], k);
    }
  }

  /** By value, for one key: an erase keeps the first `k` characters if and only if there
      are more. */
  lemma {:induction false} EraseStays(q: seq<nat>, k: nat)
    requires 0 < k <= |q|
    ensures k <= |Erased(q)| && Erased(q)[..k] == q[..k] <==> k < |q|
  {
  }

  /** Typing keeps them if and only if there is room, or all of them, and the one that
      moves up behind them, are the same character. */
  lemma {:induction false} KeyStays(q: seq<nat>, c: nat, k: nat)
    requires 0 < k <= |q| <= TERBUF_SIZE && c != 0
    ensures k <= |Typed(q, c)|
    ensures var all := q + Typed([], c);
            Typed(q, c)[..k] == q[..k] <==> |q| < TERBUF_SIZE || forall i :: 0 <= i < k ==> all[i] == all[i + 1]
  {
    var all := q + Typed([], c);
    var now := Typed(q, c);
    if |q| < TERBUF_SIZE {
      assert now == all;
    } else {
      if now[..k] == q[..k] {
        forall i | 0 <= i < k ensures all[i] == all[i + 1] {
          assert now[..k][i] == now[i] == all[i + 1] && q[..k][i] == q[i] == all[i];
        }
      }
      if forall i :: 0 <= i < k ==> all[i] == all[i + 1] {
        forall i | 0 <= i < k ensures now[i] == q[i] {
          assert all[i] == all[i + 1];
        }
        assert now[..k] == q[..k];
      }
    }
  }

  /** So a whole line of more than its newline never survives a key into a full buffer. */
  lemma {:induction false} LineLost(q: seq<nat>, c: nat)
    requires |q| == TERBUF_SIZE && 1 < LineLength(q) && c != 0
    ensures LineLength(q) <= |Typed(q, c)| && Typed(q, c)[..LineLength(q)] != q[..LineLength(q)]
  {
    var n := LineLength(q);
    KeyStays(q, c, n);
    var all := q + Typed([], c);
    assert all[n - 2] == q[n - 2] && all[n - 1] == q[n - 1];
  }

  // ---------- the ring ----------

  /** Index of the `i`-th character after `hd`. */
  function Slot(hd: nat, i: nat): (k: nat)
    requires hd < TERBUF_SIZE && i <= TERBUF_SIZE
    ensures k < TERBUF_SIZE
  {
    if hd + i < TERBUF_SIZE then hd + i else hd + i - TERBUF_SIZE
  }

  lemma {:induction false} SlotIs(hd: nat, i: nat)
    requires hd < TERBUF_SIZE && i <= TERBUF_SIZE
    ensures Slot(hd, i) == (hd + i) % TERBUF_SIZE
  {
  }

  ghost function Ring(b: seq<nat>, hd: nat, n: nat): (q: seq<nat>)
    requires |b| == TERBUF_SIZE && hd < TERBUF_SIZE && n <= TERBUF_SIZE
    ensures |q| == n && forall i :: 0 <= i < n ==> q[i] == b[Slot(hd, i)]
  {
    seq(n, i requires 0 <= i < n => b[Slot(hd, i)])
  }

  /** Writing behind the last character adds it. */
  lemma {:induction false} RingAdd(b: seq<nat>, hd: nat, n: nat, c: nat)
    requires |b| == TERBUF_SIZE && hd < TERBUF_SIZE && n < TERBUF_SIZE
    ensures Ring(b[Slot(hd, n) := c], hd, n + 1) == Ring(b, hd, n) + [c]
  {
  }

  /** Moving the head forward takes characters off the front. */
  lemma {:induction false} RingDrop(b: seq<nat>, hd: nat, n: nat, k: nat)
    requires |b| == TERBUF_SIZE && hd < TERBUF_SIZE && k <= n <= TERBUF_SIZE
    ensures Ring(b, Slot(hd, k), n - k) == Ring(b, hd, n)[k..]
    ensures Slot(Slot(hd, k), n - k) == Slot(hd, n)
  {
  }

  lemma {:induction false} SlotBack(hd: nat, k: nat)
    requires hd < TERBUF_SIZE && k <= TERBUF_SIZE
    ensures Slot(Slot(hd, k), TERBUF_SIZE - k) == hd
  {
  }

  lemma {:induction false} RingPrefix(b: seq<nat>, hd: nat, m: nat, n: nat)
    requires |b| == TERBUF_SIZE && hd < TERBUF_SIZE && m <= TERBUF_SIZE && n <= TERBUF_SIZE
    ensures Ring(b, hd, m)[..Min(m, n)] == Ring(b, hd, n)[..Min(m, n)]
  {
  }

  lemma {:induction false} Wraps(n: nat, k: nat)
    requires n <= TERBUF_SIZE && 0 < k <= TERBUF_SIZE
    ensures (n + 256 - k) % 256 == if k <= n then n - k else n + 256 - k
  {
  }

  /** Taking out more than there is: the tail is right only for all of an empty ring. */
  lemma {:induction false} WrapsRound(hd: nat, n: nat, k: nat)
    requires hd < TERBUF_SIZE && n < k <= TERBUF_SIZE
    ensures n + 256 - k <= TERBUF_SIZE <==> k == TERBUF_SIZE && n == 0
    ensures k == TERBUF_SIZE && n == 0 ==> Slot(hd, n) == Slot(Slot(hd, k), n + 256 - k)
  {
  }

  /** The queue when the search ends: it holds a line, or the keys have run out. */
  function Awaited(q: seq<nat>, rounds: seq<seq<Event>>): seq<nat>
    decreases |rounds|
  {
    if LineLength(q) > 0 || rounds == [] then q else Awaited(Pressed(q, rounds[0]), rounds[1..])
  }

  /** The queue after the keys of the first `n` rounds. */
  function AfterRounds(q: seq<nat>, rounds: seq<seq<Event>>, n: nat): seq<nat>
    requires n <= |rounds|
  {
    if n == 0 then q else Pressed(AfterRounds(q, rounds, n - 1), rounds[n - 1])
  }

  /** The search ends after the first round that leaves a line, and not before; or when
      there are no more keys. */
  lemma {:induction false} AwaitedIs(q: seq<nat>, rounds: seq<seq<Event>>) returns (n: nat)
    ensures n <= |rounds| && Awaited(q, rounds) == AfterRounds(q, rounds, n)
    ensures forall i :: 0 <= i < n ==> NoLine(AfterRounds(q, rounds, i))
    ensures n < |rounds| ==> !NoLine(AfterRounds(q, rounds, n))
    decreases |rounds|
  {
    n := 0;
    if LineLength(q) > 0 {
      assert EndsLine(q[LineLength(q) - 1]);
    } else if rounds != [] {
      var next, rest := Pressed(q, rounds[0]), rounds[1..];
      var m := AwaitedIs(next, rest);
      forall i | 0 <= i <= |rest| ensures AfterRounds(next, rest, i) == AfterRounds(q, rounds, i + 1) {
        OneRoundOn(q, rounds, i);
      }
      n := m + 1;
      forall i | 0 <= i < n ensures NoLine(AfterRounds(q, rounds, i)) {
        if i > 0 { assert NoLine(AfterRounds(next, rest, i - 1)); }
      }
    }
  }

  lemma {:induction false} OneRoundOn(q: seq<nat>, rounds: seq<seq<Event>>, i: nat)
    requires rounds != [] && i <= |rounds| - 1
    ensures AfterRounds(Pressed(q, rounds[0]), rounds[1..], i) == AfterRounds(q, rounds, i + 1)
  {
    if i == 0 {
      assert AfterRounds(q, rounds, 0) == q;
    } else {
      OneRoundOn(q, rounds, i - 1);
    }
  }

  /** What the search found is still there to be taken out. */
  predicate Fits(q: seq<nat>, between: seq<Event>, nbytes: nat) {
    LineLength(q) == 0 || Taken(q, nbytes) <= |Pressed(q, between)|
  }

  /** The ring stays a ring: also, with stale bytes, when all of it is taken from an
      empty one. */
  predicate Sound(q: seq<nat>, between: seq<Event>, nbytes: nat) {
    Fits(q, between, nbytes) || (Taken(q, nbytes) == TERBUF_SIZE && Pressed(q, between) == [])
  }

  function Left(q: seq<nat>, between: seq<Event>, nbytes: nat): seq<nat>
    requires Fits(q, between, nbytes)
  {
    if LineLength(q) == 0 then q else Pressed(q, between)[Taken(q, nbytes)..]
  }

  /** What a read returns, of the queue `q` in which the search ended. */
  ghost predicate Taking(q: seq<nat>, between: seq<Event>, nbytes: nat, r: Outcome, was: seq<nat>, dest: seq<nat>)
    requires |was| == |dest|
  {
    var k, now := Taken(q, nbytes), Pressed(q, between);
    if LineLength(q) == 0 then r == Waiting && dest == was
    else
      && r == Returned(k) && 0 < k <= |dest| && dest[k..] == was[k..]
      && dest[..Min(k, |now|)] == now[..Min(k, |now|)]
      && (Quiet(q, between, k) ==> dest[..k] == q[..k])
  }

  /** A read returns the least of the length of the first line, what is asked for and the
      size of the buffer; up to the last byte returned there is no line end, when the keys
      leave the line alone. */
  ghost predicate FirstLine(q: seq<nat>, between: seq<Event>, nbytes: nat, r: Outcome, dest: seq<nat>) {
    && (forall n :: IsLine(q, n) ==> r.Returned? && r.n >= 0 && LeastOf(r.n, n, nbytes, TERBUF_SIZE))
    && (r.Returned? && r.n >= 0 && Quiet(q, between, r.n) ==>
          r.n <= |dest| && forall j :: 0 <= j < r.n - 1 ==> !EndsLine(dest[j]))
  }

  lemma {:induction false} FirstLineOnly(q: seq<nat>, nbytes: nat, n: nat, k: nat, dest: seq<nat>, between: seq<Event>)
    requires IsLine(q, n) && k == Taken(q, nbytes) <= |dest| && (Quiet(q, between, k) ==> dest[..k] == q[..k])
    ensures FirstLine(q, between, nbytes, Returned(k), dest)
  {
    forall m | IsLine(q, m) ensures LeastOf(k, m, nbytes, TERBUF_SIZE) { TakenIs(q, nbytes, m); }
    TakenIs(q, nbytes, n);
    if Quiet(q, between, k) {
      forall j | 0 <= j < k - 1 ensures !EndsLine(dest[j]) {
        assert dest[..k][j] == q[..k][j] == q[j] && dest[..k][j] == dest[j];
      }
    }
  }

  lemma {:induction false} NoFirstLine(q: seq<nat>, between: seq<Event>, nbytes: nat, dest: seq<nat>)
    requires LineLength(q) == 0
    ensures FirstLine(q, between, nbytes, Waiting, dest)
  {
  }

  /** Outcome of a read: -1, a length, or still searching for a line. */
  datatype Outcome = Waiting | Returned(n: int)

  class Terminal {
    const buffer: array<nat>
    var bufhd: nat
    var buftl: nat
    var size: nat

    ghost predicate Valid()
      reads this
    {
      && buffer.Length == TERBUF_SIZE && bufhd < TERBUF_SIZE && size <= TERBUF_SIZE
      && buftl == Slot(bufhd, size)
    }

    ghost function Contents(): (q: seq<nat>)
      requires Valid()
      reads this, buffer
      ensures |q| == size
    {
      Ring(buffer[..], bufhd, size)
    }

    constructor ()
      ensures Valid() && Contents() == [] && fresh(buffer)
    {
      buffer := new nat[TERBUF_SIZE](i => 0);
      bufhd, buftl, size := 0, 0, 0;
    }

    /** `in`: a character joins the queue; in a full one the oldest makes room. */
    method In(c: nat)
      requires Valid()
      modifies this, buffer
      ensures Valid() && Contents() == Typed(old(Contents()), c)
      ensures c == 0 ==> Contents() == old(Contents())
      ensures c != 0 ==>
                var added := [if c == RETURN then NEWLINE else c];
                Contents() == if old(size) < TERBUF_SIZE then old(Contents()) + added else old(Contents())[1..] + added
    {
      var character := c;
      if character == RETURN {
        character := NEWLINE;
      }
      if character != 0 {
        if size == TERBUF_SIZE {
          RingDrop(buffer[..], bufhd, size, 1);
          SlotIs(bufhd, 1);
          bufhd := (bufhd + 1) % TERBUF_SIZE;
        }
        Put(character);
        if size != TERBUF_SIZE {
          size := size + 1;
        }
      }
    }

    /** Writes at the tail and moves it on. */
    method Put(c: nat)
      requires buffer.Length == TERBUF_SIZE && bufhd < TERBUF_SIZE && size <= TERBUF_SIZE
      requires buftl == Slot(bufhd, if size == TERBUF_SIZE then size - 1 else size)
      modifies this`buftl, buffer
      ensures buftl == Slot(bufhd, if size == TERBUF_SIZE then size else size + 1)
      ensures var n := if size == TERBUF_SIZE then size - 1 else size;
              Ring(buffer[..], bufhd, n + 1) == Ring(old(buffer[..]), bufhd, n) + [c]
    {
      ghost var n := if size == TERBUF_SIZE then size - 1 else size;
      RingAdd(buffer[..], bufhd, n, c);
      SlotIs(buftl, 1);
      buffer[buftl] := c;
      buftl := (buftl + 1) % TERBUF_SIZE;
    }

    /** `backspace`: the newest character goes. */
    method Backspace()
      requires Valid()
      modifies this`buftl, this`size
      ensures Valid() && Contents() == Erased(old(Contents()))
      ensures Contents() == if old(size) == 0 then [] else old(Contents())[..old(size) - 1]
    {
      if size != 0 {
        size := size - 1;
        if buftl == 0 {
          buftl := TERBUF_SIZE - 1;
        } else {
          buftl := buftl - 1;
        }
      }
    }

    /** One round of the search in `terminal_read`. */
    method Scan() returns (found: bool, nread: nat)
      requires Valid()
      ensures found ==> IsLine(Contents(), nread)
      ensures !found ==> NoLine(Contents()) && nread == size
    {
      found, nread := false, 0;
      var start := bufhd;
      while nread < size
        invariant nread <= size && start == Slot(bufhd, nread)
        invariant forall i :: 0 <= i < nread ==> !EndsLine(Contents()[i])
      {
        if buffer[start] == NEWLINE || buffer[start] == RETURN {
          nread := nread + 1;
          return true, nread;
        }
        SlotIs(start, 1);
        start := (start + 1) % TERBUF_SIZE;
        nread := nread + 1;
      }
    }

    /** `bufcpy`: copies out of the ring, starting at `hd`. */
    method Bufcpy(dest: array<nat>, nbytes: nat, hd: nat)
      requires buffer.Length == TERBUF_SIZE && hd < TERBUF_SIZE && nbytes <= TERBUF_SIZE && nbytes <= dest.Length
               && dest != buffer
      modifies dest
      ensures dest[..nbytes] == Ring(buffer[..], hd, nbytes) && dest[nbytes..] == old(dest[nbytes..])
    {
      var i, k := hd, 0;
      while k < nbytes
        invariant k <= nbytes && i == Slot(hd, k)
        invariant forall j :: 0 <= j < k ==> dest[j] == buffer[Slot(hd, j)]
        invariant dest[nbytes..] == old(dest[nbytes..])
      {
        dest[k] := buffer[i];
        SlotIs(i, 1);
        i := (i + 1) % TERBUF_SIZE;
        k := k + 1;
      }
    }

    /** The second half of `terminal_read`: takes out the `nread` characters the search
        found, `nbytes` at most.  `size` is a byte: it wraps when fewer are left. */
    method Consume(dest: array<nat>, nread: nat, nbytes: nat) returns (k: nat)
      requires Valid() && 0 < nread <= TERBUF_SIZE && 0 < nbytes && dest != buffer && Min(nread, nbytes) <= dest.Length
      modifies this`bufhd, this`size, dest
      ensures k == Min(nread, nbytes) && dest[k..] == old(dest[k..])
      ensures dest[..k] == Ring(buffer[..], old(bufhd), k)
      ensures k <= old(size) ==> Valid() && dest[..k] == old(Contents())[..k] && Contents() == old(Contents())[k..]
      ensures bufhd == Slot(old(bufhd), k) && (k > old(size) ==> size == old(size) + 256 - k)
      ensures k > old(size) ==> (Valid() <==> k == TERBUF_SIZE && old(size) == 0)
      ensures Valid() && size <= old(size) <==> k <= old(size)
    {
      k := nread;
      if nread > nbytes {
        k := nbytes;
      }
      Bufcpy(dest, k, bufhd);
      RingPrefix(buffer[..], bufhd, size, k);
      Advance(k);
    }

    /** Moves the head on and lowers the size. */
    method Advance(k: nat)
      requires Valid() && 0 < k <= TERBUF_SIZE
      modifies this`bufhd, this`size
      ensures k <= old(size) ==> Valid() && Contents() == old(Contents())[k..]
      ensures bufhd == Slot(old(bufhd), k) && (k > old(size) ==> size == old(size) + 256 - k)
      ensures k > old(size) ==> (Valid() <==> k == TERBUF_SIZE && old(size) == 0)
    {
      if k <= size { RingDrop(buffer[..], bufhd, size, k); }
      SlotIs(bufhd, k);
      Wraps(size, k);
      if k > size { WrapsRound(bufhd, size, k); }
      bufhd := (bufhd + k) % TERBUF_SIZE;
      size := (size + 256 - k) % 256;
    }

    /** One event.  `k` is what the last search found. */
    method Perform(e: Event, k: nat, ghost l: Ledger) returns (k': nat, out: seq<nat>)
      requires Valid() && l.queue == Contents() && k == l.found <= TERBUF_SIZE
      modifies this, buffer
      ensures Ready(l, e) ==> Valid() && Contents() == Step(l, e).queue && k' == Step(l, e).found <= TERBUF_SIZE
      ensures Ready(l, e) ==> out == Out(l, e)
      ensures e.Take? && k <= |l.queue| ==> Valid() && out == l.queue[..k] && Contents() == l.queue[k..]
      ensures !Ready(l, e) ==> size == |l.queue| + 256 - k && (Valid() <==> k == TERBUF_SIZE && l.queue == [])
      ensures !Ready(l, e) ==> |out| == k && out[..|l.queue|] == l.queue
    {
      k', out := k, [];
      match e
      case Key(c) => In(c);
      case Back => Backspace();
      case Find(nbytes) =>
        var found, nread := Scan();
        if found { OneFirstLine(Contents(), nread, LineLength(Contents())); }
        k' := if found then Min(nread, Min(nbytes, TERBUF_SIZE)) else 0;
      case Take =>
        if k > 0 {
          k', out := TakeOut(k);
        }
    }

    /** The second half of a read that found `k` characters. */
    method TakeOut(k: nat) returns (none: nat, out: seq<nat>)
      requires Valid() && 0 < k <= TERBUF_SIZE
      modifies this`bufhd, this`size
      ensures none == 0 && |out| == k
      ensures k <= old(size) ==> Valid() && out == old(Contents())[..k] && Contents() == old(Contents())[k..]
      ensures k > old(size) ==> size == old(size) + 256 - k && (Valid() <==> k == TERBUF_SIZE && old(size) == 0)
      ensures k > old(size) ==> out[..old(size)] == old(Contents())
    {
      var dest := new nat[k];
      var n := Consume(dest, k, k);
      none, out := 0, dest[..];
    }

    /** The state after `n` events, all of them covered. */
    ghost predicate Played(l: Ledger, es: seq<Event>, n: nat, k: nat, out: seq<nat>)
      requires n <= |es|
      reads this, buffer
    {
      && Covered(l, es[..n]) && Valid() && out == Output(l, es[..n])
      && Contents() == Run(l, es[..n]).queue && k == Run(l, es[..n]).found <= TERBUF_SIZE
    }

    /** Any run of events, up to the first removal that finds too few characters.  Until
        then the ring is the queue of the ledger; that one returns what is left and
        whatever lies behind it, and the size wraps. */
    method Play(es: seq<Event>) returns (done: nat, out: seq<nat>)
      requires Valid()
      modifies this, buffer
      ensures var l := Ledger([], old(Contents()), 0);
              && done <= |es| && Covered(l, es[..done])
              && (done == |es| ==> Covered(l, es) && Valid() && Contents() == Run(l, es).queue && out == Output(l, es))
              && (done < |es| ==>
                    && var now := Run(l, es[..done]);
                    && es[done].Take? && now.found > |now.queue| && size == |now.queue| + 256 - now.found
                    && (Valid() <==> now.found == TERBUF_SIZE && now.queue == [])
                    && Output(l, es[..done]) + now.queue <= out && |out| == |Output(l, es[..done])| + now.found)
    {
      ghost var l := Ledger([], Contents(), 0);
      var k: nat := 0;
      done, out := 0, [];
      while done < |es|
        invariant done <= |es| && Played(l, es, done, k, out)
      {
        var bytes;
        RunNext(l, es, done);
        var tooFew := es[done].Take? && k > size;
        k, bytes := Perform(es[done], k, Run(l, es[..done]));
        out := out + bytes;
        if tooFew {
          return;
        }
        done := done + 1;
      }
      assert es[..done] == es;
    }

    /** Keys, in the order the keyboard interrupt takes them. */
    method Press(es: seq<Event>)
      requires Valid() && OnlyKeys(es)
      modifies this, buffer
      ensures Valid() && Contents() == Pressed(old(Contents()), es)
    {
      ghost var q := Contents();
      var i := 0;
      while i < |es|
        invariant i <= |es| && Valid() && Contents() == Pressed(q, es[..i])
      {
        assert es[..i + 1][..i] == es[..i];
        match es[i] {
          case Key(c) => In(c);
          case Back => Backspace();
        }
        i := i + 1;
      }
      assert es[..i] == es;
    }

    /** The search loop of `terminal_read`: `rounds[i]` are the keys that come before
        the search is repeated for the `i`-th time. */
    method Search(rounds: seq<seq<Event>>) returns (found: bool, nread: nat)
      requires Valid() && forall i :: 0 <= i < |rounds| ==> OnlyKeys(rounds[i])
      modifies this, buffer
      ensures Valid() && Contents() == Awaited(old(Contents()), rounds)
      ensures found <==> LineLength(Contents()) > 0
      ensures found ==> nread == LineLength(Contents())
    {
      ghost var q := Contents();
      var i := 0;
      while true
        invariant i <= |rounds| && Valid() && Awaited(Contents(), rounds[i..]) == Awaited(q, rounds)
        decreases |rounds| - i
      {
        found, nread := Scan();
        if found {
          OneFirstLine(Contents(), nread, LineLength(Contents()));
          return;
        }
        if i == |rounds| {
          return;
        }
        Press(rounds[i]);
        i := i + 1;
      }
    }

    /** `terminal_read`.  `rounds` are the keys while it searches, `between` those that
        come after the search and before the line is taken out. */
    method Read(fd: int, dest: array<nat>, nbytes: int, rounds: seq<seq<Event>>, between: seq<Event>)
      returns (r: Outcome)
      requires Valid() && dest != buffer && nbytes <= dest.Length
      requires OnlyKeys(between) && forall i :: 0 <= i < |rounds| ==> OnlyKeys(rounds[i])
      modifies this, buffer, dest
      ensures fd != 0 || nbytes < 0 ==> r == Returned(-1)
      ensures fd == 0 && nbytes == 0 ==> r == Returned(0)
      ensures fd != 0 || nbytes <= 0 ==> Valid() && Contents() == old(Contents()) && dest[..] == old(dest[..])
      ensures fd == 0 && nbytes > 0 ==>
                Taking(Awaited(old(Contents()), rounds), between, nbytes, r, old(dest[..]), dest[..])
      ensures fd == 0 && nbytes > 0 ==> FirstLine(Awaited(old(Contents()), rounds), between, nbytes, r, dest[..])
      ensures r.Returned? && r.n > 0 ==>
                r.n <= TERBUF_SIZE && bufhd < TERBUF_SIZE && buffer.Length == TERBUF_SIZE && r.n <= dest.Length
                && dest[..r.n] == Ring(buffer[..], Slot(bufhd, TERBUF_SIZE - r.n), r.n)
      ensures fd == 0 && nbytes > 0 ==> (Valid() <==> Sound(Awaited(old(Contents()), rounds), between, nbytes))
      ensures fd == 0 && nbytes > 0 && Fits(Awaited(old(Contents()), rounds), between, nbytes) ==>
                Contents() == Left(Awaited(old(Contents()), rounds), between, nbytes)
    {
      if fd != 0 || nbytes < 0 {
        return Returned(-1);
      }
      if nbytes == 0 {
        return Returned(0);
      }
      var limit := if nbytes > TERBUF_SIZE then TERBUF_SIZE else nbytes;
      var found, nread := Search(rounds);
      if !found {
        NoFirstLine(Contents(), between, nbytes, dest[..]);
        return Waiting;
      }
      ghost var q := Contents();
      var k := Finish(dest, nread, limit, between);
      FirstLineOnly(q, nbytes, nread, k, dest[..], between);
      r := Returned(k);
    }

    /** The keys after the search, and the second half. */
    method Finish(dest: array<nat>, nread: nat, limit: nat, between: seq<Event>) returns (k: nat)
      requires Valid() && dest != buffer && OnlyKeys(between) && nread == LineLength(Contents()) > 0
      requires 0 < limit <= TERBUF_SIZE && limit <= dest.Length
      modifies this, buffer, dest
      ensures var q := old(Contents()); var now := Pressed(q, between);
              && k == Taken(q, limit) && 0 < k <= TERBUF_SIZE
              && Taking(q, between, limit, Returned(k), old(dest[..]), dest[..])
              && bufhd < TERBUF_SIZE && dest[..k] == Ring(buffer[..], Slot(bufhd, TERBUF_SIZE - k), k)
              && (Valid() <==> k <= |now| || (k == TERBUF_SIZE && now == []))
              && (k <= |now| ==> Contents() == now[k..])
    {
      ghost var q := Contents();
      Press(between);
      ghost var hd, n, now := bufhd, size, Contents();
      k := Consume(dest, nread, limit);
      SlotBack(hd, k);
      RingPrefix(buffer[..], hd, n, k);
      if Quiet(q, between, k) { LineStays(q, between, k); }
    }
  }
}

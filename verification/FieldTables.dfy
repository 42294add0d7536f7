/** The lazily built tables of galois.c for one word size, and the dispatchers over them. */
module FieldTables {
  import opened Words
  import opened Indexing
  import opened GaloisField
  import opened PrimitiveElement
  import opened ShiftArithmetic
  import SplitTables

  datatype MultType = None | Table | Shift | Logs | SplitW8

  /** mult_type[w] */
  function MultTypeOf(w: nat): MultType {
    if w == 0 || w > 32 then None
    else if w <= 9 then Table
    else if w <= 22 then Logs
    else if w <= 31 then Shift
    else SplitW8
  }

  /** When a product of nonzero words calls exit(1): the tables for it are missing and cannot be built.
      Those of w = 32 are started from the tables of w = 8, whose modulus is g. */
  ghost predicate NoTables(f: Field, g: Field, built: bool)
    requires f.Valid() && g.Valid()
  {
    if f.w <= 22 then !NoCollision(f) else f.w == 32 && !built && !NoCollision(g)
  }

  /** When galois_single_divide calls exit(1): a table that is needed cannot be built, or, without
      log tables, b has no inverse. */
  ghost predicate DivideExits(f: Field, g: Field, built: bool, a: nat, b: nat)
    requires f.Valid() && g.Valid() && f.Has(b)
  {
    if f.w <= 9 then !NoCollision(f)
    else a != 0 && b != 0 && (NoTables(f, g, built) || (f.w > 22 && !Invertible(f, b)))
  }

  /** It never does where the tables can be built, and, without log tables, in a field. */
  lemma DivideNeverExits(f: Field, g: Field, built: bool, a: nat, b: nat)
    requires f.Valid() && g.Valid() && f.Has(b) && if f.w <= 22 then NoCollision(f) else IsField(f)
    requires f.w == 32 ==> built || NoCollision(g)
    ensures !DivideExits(f, g, built, a, b)
  {
    if f.w > 22 && b != 0 { RegularIsInvertible(f, b); }
  }

  /** galois_log_tables[w]: exponents of the powers of x, and the out-of-range exponent nwm1[w] for
      the one word that is no power. */
  ghost predicate HoldsLogs(f: Field, log: seq<nat>)
    requires f.Valid()
  {
    |log| == Pow2(f.w) &&
    (forall j: nat :: j < Order(f) ==> Power(f, j) < |log| && log[Power(f, j)] == j)
  }

  /** galois_ilog_tables[w] before its pointer is advanced by nwm1[w]: three turns of the powers. */
  ghost predicate HoldsPowers(f: Field, ilog: seq<nat>)
    requires f.Valid()
  {
    |ilog| == 3 * Pow2(f.w) && forall j: nat :: j < 3 * Order(f) ==> ilog[j] == Power(f, j)
  }

  /** The answer of every divide routine: -1 for a zero divisor, else the quotient. */
  ghost predicate IsQuotient(f: Field, r: int, a: nat, b: nat)
    requires f.Valid()
  {
    if b == 0 then r == -1 else r >= 0 && f.Has(r) && Mul(f, r, b) == a
  }

  lemma LogOf(f: Field, log: seq<nat>, x: nat)
    requires f.Valid() && Odd(f) && NoCollision(f) && HoldsLogs(f, log) && f.Has(x) && x != 0
    ensures log[x] < Order(f) && Power(f, log[x]) == x
  {
    var j := EveryWordIsPower(f, x);
  }

  /** The two tables are mutually inverse bijections between the nonzero words and the exponents
      below nwm1[w], the three turns of powers agree, and x to the power nwm1[w] is 1. */
  lemma TablesInverse(f: Field, log: seq<nat>, ilog: seq<nat>)
    requires f.Valid() && Odd(f) && NoCollision(f) && HoldsLogs(f, log) && HoldsPowers(f, ilog)
    ensures forall x: nat :: 0 < x < Pow2(f.w) ==> log[x] < Order(f) && ilog[log[x]] == x
    ensures forall j: nat :: j < Order(f) ==> 0 < ilog[j] < Pow2(f.w) && log[ilog[j]] == j
    ensures forall j: nat :: j < Order(f) ==>
      (ilog[j + Order(f)] == ilog[j] && ilog[j + 2 * Order(f)] == ilog[j])
    ensures Power(f, Order(f)) == 1
  {
    hide Power;
    PowerCycle(f);
    forall x: nat | 0 < x < Pow2(f.w)
      ensures log[x] < Order(f) && ilog[log[x]] == x
    {
      LogOf(f, log, x);
    }
    forall j: nat | j < Order(f)
      ensures 0 < ilog[j] < Pow2(f.w) && log[ilog[j]] == j
      ensures ilog[j + Order(f)] == ilog[j] && ilog[j + 2 * Order(f)] == ilog[j]
    {
      PowerHas(f, j);
      PowerNonzero(f, j);
      PowerPeriod(f, j);
      PowerPeriod(f, j + Order(f));
    }
  }

  /** All divide routines give the same answer: in a field it is determined by the operands. */
  lemma QuotientsAgree(f: Field, r: int, r': int, a: nat, b: nat)
    requires IsField(f) && f.Has(a) && f.Has(b) && IsQuotient(f, r, a, b) && IsQuotient(f, r', a, b)
    ensures r == r'
  {
    if b != 0 { Cancel(f, r, r', b); }
  }

  /** Adding logarithms multiplies; the sum stays inside the second and third turn. */
  lemma {:induction false} LogsMultiply(f: Field, log: seq<nat>, ilog: seq<nat>, x: nat, y: nat)
    requires f.Valid() && Odd(f) && NoCollision(f) && HoldsLogs(f, log) && HoldsPowers(f, ilog)
    requires f.Has(x) && f.Has(y) && x != 0 && y != 0
    ensures Order(f) + log[x] + log[y] < 3 * Order(f)
    ensures ilog[Order(f) + log[x] + log[y]] == Mul(f, x, y)
  {
    LogOf(f, log, x);
    LogOf(f, log, y);
    PowerMul(f, log[x], log[y]);
    PowerPeriod(f, log[x] + log[y]);
  }

  /** Subtracting logarithms divides; a negative difference reaches back into the first turn. */
  lemma LogsDivide(f: Field, log: seq<nat>, ilog: seq<nat>, x: nat, y: nat)
    requires f.Valid() && Odd(f) && NoCollision(f) && HoldsLogs(f, log) && HoldsPowers(f, ilog)
    requires f.Has(x) && f.Has(y) && x != 0 && y != 0
    ensures 0 <= Order(f) + log[x] - log[y] < 3 * Order(f)
    ensures IsQuotient(f, ilog[Order(f) + log[x] - log[y]], x, y)
  {
    LogOf(f, log, x);
    LogOf(f, log, y);
    var k := Order(f) + log[x] - log[y];
    PowerMul(f, k, log[y]);
    PowerPeriod(f, log[x]);
    PowerHas(f, k);
  }

  /** Row a, column b of both product tables, at the index (a << w) | b. */
  ghost predicate HoldsEntry(f: Field, mult: seq<nat>, div: seq<int>, a: nat, b: nat)
    requires f.Valid()
  {
    var k := At(a, b, Pow2(f.w));
    k < |mult| && k < |div| && mult[k] == Mul(f, a, b) && IsQuotient(f, div[k], a, b)
  }

  /** The product tables up to, and not including, row x column y. */
  ghost predicate HoldsEntries(f: Field, mult: seq<nat>, div: seq<int>, x: nat, y: nat)
    requires f.Valid()
  {
    forall a: nat, b: nat :: f.Has(b) && (a < x || (a == x && b < y)) ==> HoldsEntry(f, mult, div, a, b)
  }

  /** Writes the powers of x into both tables; false is the call of exit(1). */
  method FillLogs(f: Field, logs: array<nat>, ilogs: array<nat>) returns (ok: bool)
    requires f.Valid() && logs != ilogs && logs.Length == Pow2(f.w) && ilogs.Length == 3 * Pow2(f.w)
    requires forall x :: 0 <= x < logs.Length ==> logs[x] == Order(f)
    modifies logs, ilogs
    ensures ok <==> NoCollision(f)
    ensures ok ==> HoldsLogs(f, logs[..]) && forall i: nat :: i < Order(f) ==> ilogs[i] == Power(f, i)
  {
    hide Xor, Low, Bit, Pow2;
    var nwm1 := Order(f);
    var b := 1;
    PowerHas(f, 0);
    for j := 0 to nwm1
      invariant b == Power(f, j) && f.Has(b)
      invariant forall i: nat :: i < j ==> f.Has(Power(f, i)) && logs[Power(f, i)] == i && ilogs[i] == Power(f, i)
      invariant forall x :: 0 <= x < logs.Length && logs[x] != nwm1 ==> logs[x] < j && Power(f, logs[x]) == x
      invariant forall i: nat, k: nat :: i < k < j ==> Power(f, i) != Power(f, k)
    {
      if logs[b] != nwm1 {
        ghost var i: nat := logs[b];
        assert i < j < Order(f) && Power(f, i) == Power(f, j);
        return false;
      }
      logs[b] := j;
      ilogs[j] := b;
      PowerHas(f, j + 1);
      StepAsInLogs(f, b);
      b := 2 * b;
      if Bit(b, f.w) { b := Low(Xor(b, f.poly), f.w); }
    }
    ok := true;
  }

  /** The table loop tests the bit above the word after doubling. */
  lemma {:induction false} StepAsInLogs(f: Field, b: nat)
    requires f.Valid()
    ensures Step(f, b) == if Bit(2 * b, f.w) then Low(Xor(2 * b, f.poly), f.w) else 2 * b
  {
    assert Bit(2 * b, f.w) == Bit(b, f.w - 1);
  }

  /** A table that has been built stays. */
  ghost predicate Kept<T>(before: seq<T>, after: seq<T>) {
    before != [] ==> after == before
  }

  /** The tables of one word size; an empty sequence stands for a NULL pointer. */
  class Tables {
    const f: Field
    /** For w = 32 the tables of w = 8, which galois_create_split_w8_tables asks for first. */
    const eight: Tables?
    var log: seq<nat>
    var ilog: seq<nat>
    var mult: seq<nat>
    var div: seq<int>
    var split: seq<seq<nat>>

    constructor (f: Field, eight: Tables?)
      requires f.Valid() && f.w <= 32 && Odd(f)
      requires (f.w == 32 <==> eight != null) && (eight != null ==> eight.Sound() && eight.f.w == 8)
      ensures Valid() && this.f == f && this.eight == eight && log == [] && mult == [] && split == []
    {
      this.f, this.eight := f, eight;
      log, ilog, mult, div, split := [], [], [], [], [];
    }

    /** A table that is present holds what it should. */
    ghost predicate Sound()
      reads this
    {
      f.Valid() && f.w <= 32 && Odd(f) &&
      (log != [] ==> NoCollision(f) && HoldsLogs(f, log) && HoldsPowers(f, ilog)) &&
      (log == [] <==> ilog == []) && (mult == [] <==> div == []) &&
      (mult != [] ==> NoCollision(f) && HoldsEntries(f, mult, div, Pow2(f.w), 0)) &&
      (split != [] ==> SplitTables.Ready(f, split))
    }

    ghost predicate Valid()
      reads this, eight
    {
      Sound() && (f.w == 32 <==> eight != null) && (eight != null ==> eight.Sound() && eight.f.w == 8)
    }

    /** The modulus of w = 8. */
    function Eight(): Field {
      if eight == null then f else eight.f
    }

    /** No table that has been built is lost. */
    twostate predicate AllKept()
      reads this
    {
      Kept(old(log), log) && Kept(old(ilog), ilog) && Kept(old(mult), mult) && Kept(old(div), div) && Kept(old(split), split)
    }

    /** -1 for w > 30, and exit(1) exactly when the powers of x collide. */
    method CreateLogTables() returns (r: Result)
      requires Sound()
      modifies this`log, this`ilog
      ensures Sound()
      ensures AllKept()
      ensures f.w > 30 ==> r == Ok(-1) && unchanged(this)
      ensures f.w <= 30 ==> (r == Ok(0) <==> NoCollision(f)) && (r == Ok(0) <==> log != []) && (r == Exit || r == Ok(0))
    {
      if f.w > 30 { return Ok(-1); }
      if log != [] { return Ok(0); }
      var ok, logs, ilogs := BuildLogs(f);
      if !ok { return Exit; }
      log, ilog := logs, ilogs;
      r := Ok(0);
    }

    /** -1 for w >= 14, and exit(1) exactly when the log tables cannot be built. */
    method CreateMultTables() returns (r: Result)
      requires Sound()
      modifies this`log, this`ilog, this`mult, this`div
      ensures Sound()
      ensures AllKept()
      ensures f.w >= 14 ==> r == Ok(-1) && unchanged(this)
      ensures f.w < 14 ==> (r == Ok(0) <==> NoCollision(f)) && (r == Ok(0) <==> mult != []) && (r == Exit || r == Ok(0))
    {
      if f.w >= 14 { return Ok(-1); }
      if mult != [] { return Ok(0); }
      if log == [] {
        r := CreateLogTables();
        if r == Exit { return; }
      }
      mult, div := BuildProducts(f, log, ilog);
      r := Ok(0);
    }

    method LogtableMultiply(x: nat, y: nat) returns (z: nat)
      requires Sound() && log != [] && f.Has(x) && f.Has(y)
      ensures z == Mul(f, x, y)
    {
      MulZero(f, x);
      MulZero(f, y);
      if x == 0 || y == 0 { return 0; }
      LogsMultiply(f, log, ilog, x, y);
      var sum_j := log[x] + log[y];
      z := ilog[Order(f) + sum_j];
    }

    method LogtableDivide(x: nat, y: nat) returns (z: int)
      requires Sound() && log != [] && f.Has(x) && f.Has(y)
      ensures IsQuotient(f, z, x, y)
      ensures if y == 0 then z == -1 else z >= 0 && f.Has(z) && Mul(f, z, y) == x
    {
      if y == 0 { return -1; }
      MulZero(f, y);
      if x == 0 { return 0; }
      LogsDivide(f, log, ilog, x, y);
      var sum_j: int := log[x] as int - log[y];
      z := ilog[Order(f) + sum_j];
    }

    method MulttableMultiply(x: nat, y: nat) returns (z: nat)
      requires Sound() && mult != [] && f.Has(x) && f.Has(y)
      ensures z == Mul(f, x, y)
    {
      assert HoldsEntry(f, mult, div, x, y);
      z := mult[At(x, y, Pow2(f.w))];
    }

    method MulttableDivide(x: nat, y: nat) returns (z: int)
      requires Sound() && mult != [] && f.Has(x) && f.Has(y)
      ensures IsQuotient(f, z, x, y)
      ensures if y == 0 then z == -1 else z >= 0 && f.Has(z) && Mul(f, z, y) == x
    {
      assert HoldsEntry(f, mult, div, x, y);
      z := div[At(x, y, Pow2(f.w))];
    }

    /** galois_create_split_w8_tables; exit(1) exactly when the tables of w = 8 cannot be built. */
    method CreateSplitTables() returns (r: Result)
      requires Valid() && f.w == 32
      modifies this`split, eight
      ensures Valid() && AllKept() && eight.AllKept()
      ensures r == Exit || (r == Ok(0) && split != [])
      ensures r == Exit <==> old(split) == [] && !NoCollision(eight.f)
      ensures r == Exit ==> unchanged(this)
    {
      hide HoldsLogs, HoldsPowers, HoldsEntries, NoCollision, Pow2, SplitTables.Ready;
      if split != [] { return Ok(0); }
      r := eight.CreateMultTables();
      if r != Ok(0) { return Exit; }
      split := SplitTables.CreateTables(f);
    }

    /** galois_single_multiply: the product, whatever strategy the word size selects. */
    method SingleMultiply(x: nat, y: nat) returns (r: Result)
      requires Valid() && f.Has(x) && f.Has(y)
      modifies this, eight
      ensures Valid() && AllKept() && (eight != null ==> eight.AllKept())
      ensures r == Ok(Mul(f, x, y)) || r == Exit
      ensures r == Exit <==> x != 0 && y != 0 && NoTables(f, Eight(), old(split) != [])
    {
      hide Xor, Low, Bit, Mul, Shifted, Pow2;
      MulZero(f, x);
      MulZero(f, y);
      if x == 0 || y == 0 { return Ok(0); }
      match MultTypeOf(f.w)
      case Table =>
        if mult == [] {
          r := CreateMultTables();
          if r != Ok(0) { return Exit; }
        }
        var z := MulttableMultiply(x, y);
        r := Ok(z);
      case Logs =>
        if log == [] {
          r := CreateLogTables();
          if r != Ok(0) { return Exit; }
        }
        var z := LogtableMultiply(x, y);
        r := Ok(z);
      case SplitW8 =>
        if split == [] {
          r := CreateSplitTables();
          if r != Ok(0) { return Exit; }
        }
        var z := SplitTables.SplitMultiply(f, split, x, y);
        r := Ok(z);
      case Shift =>
        var z := ShiftMultiply(f, x, y);
        r := Ok(z);
      case None =>
        r := Exit;
    }

    /** galois_single_divide */
    method SingleDivide(a: nat, b: nat) returns (r: Result)
      requires Valid() && f.Has(a) && f.Has(b)
      modifies this, eight
      ensures Valid() && AllKept() && (eight != null ==> eight.AllKept())
      ensures r.Ok? ==> IsQuotient(f, r.value, a, b)
      ensures r.Ok? ==> if b == 0 then r.value == -1 else r.value >= 0 && f.Has(r.value) && Mul(f, r.value, b) == a
      ensures r.Exit? <==> DivideExits(f, Eight(), old(split) != [], a, b)
      decreases if f.w <= 22 then 0 else 2
    {
      hide Xor, Low, Bit, Mul, Shifted, Pow2;
      MulZero(f, b);
      match MultTypeOf(f.w)
      case Table =>
        if div == [] {
          r := CreateMultTables();
          if r != Ok(0) { return Exit; }
        }
        var z := MulttableDivide(a, b);
        r := Ok(z);
      case Logs =>
        if b == 0 { return Ok(-1); }
        if a == 0 { return Ok(0); }
        if log == [] {
          r := CreateLogTables();
          if r != Ok(0) { return Exit; }
        }
        var z := LogtableDivide(a, b);
        r := Ok(z);
      case _ =>
        if b == 0 { return Ok(-1); }
        if a == 0 { return Ok(0); }
        r := Inverse(b);
        if r == Exit { return; }
        var inverse := r.value;
        r := SingleMultiply(a, inverse);
        MulHas(f, a, inverse);
        MulAssoc(f, a, inverse, b);
        MulOne(f, a);
    }

    /** galois_inverse */
    method Inverse(y: nat) returns (r: Result)
      requires Valid() && f.Has(y)
      modifies this, eight
      ensures Valid() && AllKept() && (eight != null ==> eight.AllKept())
      ensures y == 0 ==> r == Ok(-1)
      ensures y != 0 && r.Ok? ==> r.value >= 0 && f.Has(r.value) && Mul(f, r.value, y) == 1
      ensures f.w > 22 ==> unchanged(this) && (eight != null ==> unchanged(eight))
      ensures r.Exit? <==> y != 0 && if f.w <= 22 then !NoCollision(f) else !Invertible(f, y)
      decreases 1
    {
      if y == 0 { return Ok(-1); }
      if MultTypeOf(f.w) == Shift || MultTypeOf(f.w) == SplitW8 {
        r := ShiftInverse(f, y);
        return;
      }
      r := SingleDivide(1, y);
    }
  }

  /** The body of galois_create_log_tables after its guards. */
  method BuildLogs(f: Field) returns (ok: bool, log: seq<nat>, ilog: seq<nat>)
    requires f.Valid() && Odd(f)
    ensures ok <==> NoCollision(f)
    ensures ok ==> log != [] && ilog != [] && HoldsLogs(f, log) && HoldsPowers(f, ilog)
  {
    hide Xor, Low, Bit, Mul, Shifted;
    var nw, nwm1 := Pow2(f.w), Order(f);
    var logs := new nat[nw];
    var ilogs := new nat[3 * nw];
    for j := 0 to nw
      invariant forall i :: 0 <= i < j ==> logs[i] == nwm1
    {
      logs[j] := nwm1;
      ilogs[j] := 0;
    }
    ok := FillLogs(f, logs, ilogs);
    log, ilog := [], [];
    if !ok { return; }
    log := logs[..];
    CopyTurns(f, ilogs);
    ilog := ilogs[..];
  }

  /** The last loop: the first turn of powers is copied behind itself twice. */
  method CopyTurns(f: Field, ilogs: array<nat>)
    requires f.Valid() && Odd(f) && NoCollision(f) && ilogs.Length == 3 * Pow2(f.w)
    requires forall i: nat :: i < Order(f) ==> ilogs[i] == Power(f, i)
    modifies ilogs
    ensures HoldsPowers(f, ilogs[..])
  {
    hide Power, Pow2, NoCollision;
    var nwm1 := Order(f);
    for j := 0 to nwm1
      invariant forall i: nat :: i < nwm1 ==> ilogs[i] == Power(f, i)
      invariant forall i: nat :: i < j ==> ilogs[i + nwm1] == Power(f, i) && ilogs[i + 2 * nwm1] == Power(f, i)
    {
      ilogs[j + nwm1] := ilogs[j];
      ilogs[j + 2 * nwm1] := ilogs[j];
    }
    ThreeTurns(f, ilogs[..]);
  }

  /** Copying the first turn twice writes every power below three turns. */
  lemma ThreeTurns(f: Field, ilog: seq<nat>)
    requires f.Valid() && Odd(f) && NoCollision(f) && |ilog| == 3 * Pow2(f.w)
    requires forall i: nat :: i < Order(f) ==>
      (ilog[i] == Power(f, i) && ilog[i + Order(f)] == Power(f, i) && ilog[i + 2 * Order(f)] == Power(f, i))
    ensures HoldsPowers(f, ilog)
  {
    hide Power;
    var n := Order(f);
    forall k: nat | k < 3 * n
      ensures ilog[k] == Power(f, k)
    {
      if n <= k < 2 * n {
        PowerPeriod(f, k - n);
        assert ilog[(k - n) + n] == Power(f, k - n);
      } else if 2 * n <= k {
        PowerPeriod(f, k - 2 * n);
        PowerPeriod(f, k - n);
        assert ilog[(k - 2 * n) + 2 * n] == Power(f, k - 2 * n);
      }
    }
  }

  /** The loops of galois_create_mult_tables: row 0 first, then every row from its logarithm. */
  method BuildProducts(f: Field, log: seq<nat>, ilog: seq<nat>) returns (mult: seq<nat>, div: seq<int>)
    requires f.Valid() && Odd(f) && NoCollision(f) && HoldsLogs(f, log) && HoldsPowers(f, ilog)
    ensures mult != [] && div != [] && HoldsEntries(f, mult, div, Pow2(f.w), 0)
  {
    hide Xor, Low, Bit, Mul, Shifted;
    var nw := Pow2(f.w);
    var mults := new nat[nw * nw];
    var divs := new int[nw * nw];
    Inside(0, 0, nw, nw);
    FirstRow(f, mults, divs);
    for x := 1 to nw
      invariant HoldsEntries(f, mults[..], divs[..], x, 0)
    {
      NextRow(f, log, ilog, mults, divs, x, At(x, 0, nw));
    }
    mult, div := mults[..], divs[..];
  }

  method FirstRow(f: Field, mults: array<nat>, divs: array<int>)
    requires f.Valid() && mults.Length == divs.Length == Pow2(f.w) * Pow2(f.w)
    modifies mults, divs
    ensures HoldsEntries(f, mults[..], divs[..], 1, 0)
  {
    hide Xor, Low, Bit, Mul, Shifted;
    var j := 0;
    Inside(0, 0, Pow2(f.w), Pow2(f.w));
    MulZero(f, 0);
    StoreKeeps(f, mults[..], divs[..], 0, 0, 0, -1);
    mults[j] := 0;
    divs[j] := -1;
    j := j + 1;
    for y := 1 to Pow2(f.w)
      invariant j == At(0, y, Pow2(f.w))
      invariant HoldsEntries(f, mults[..], divs[..], 0, y)
    {
      MulZero(f, y);
      StoreKeeps(f, mults[..], divs[..], 0, y, 0, 0);
      mults[j] := 0;
      divs[j] := 0;
      j := j + 1;
    }
    RowDone(f, mults[..], divs[..], 0);
  }

  method NextRow(f: Field, log: seq<nat>, ilog: seq<nat>, mults: array<nat>, divs: array<int>, x: nat, start: nat)
    requires f.Valid() && Odd(f) && NoCollision(f) && HoldsLogs(f, log) && HoldsPowers(f, ilog)
    requires mults.Length == divs.Length == Pow2(f.w) * Pow2(f.w) && 1 <= x < Pow2(f.w)
    requires start == At(x, 0, Pow2(f.w)) && HoldsEntries(f, mults[..], divs[..], x, 0)
    modifies mults, divs
    ensures HoldsEntries(f, mults[..], divs[..], x + 1, 0)
  {
    hide Xor, Low, Bit, Mul, Shifted;
    var j := start;
    MulZero(f, x);
    StoreKeeps(f, mults[..], divs[..], x, 0, 0, -1);
    mults[j] := 0;
    divs[j] := -1;
    j := j + 1;
    var logx := log[x];
    for y := 1 to Pow2(f.w)
      invariant j == At(x, y, Pow2(f.w))
      invariant HoldsEntries(f, mults[..], divs[..], x, y)
    {
      LogsMultiply(f, log, ilog, x, y);
      LogsDivide(f, log, ilog, x, y);
      var m, d := ilog[Order(f) + (logx + log[y])], ilog[Order(f) + (logx as int - log[y])];
      StoreKeeps(f, mults[..], divs[..], x, y, m, d);
      mults[j] := m;
      divs[j] := d;
      j := j + 1;
    }
    RowDone(f, mults[..], divs[..], x);
  }

  lemma RowDone(f: Field, mult: seq<nat>, div: seq<int>, x: nat)
    requires f.Valid() && HoldsEntries(f, mult, div, x, Pow2(f.w))
    ensures HoldsEntries(f, mult, div, x + 1, 0)
  {}

  lemma {:induction false} StoreKeeps(f: Field, mult: seq<nat>, div: seq<int>, x: nat, y: nat, m: nat, d: int)
    requires f.Valid() && |mult| == |div| == Pow2(f.w) * Pow2(f.w) && f.Has(x) && f.Has(y)
    requires HoldsEntries(f, mult, div, x, y)
    requires m == Mul(f, x, y) && IsQuotient(f, d, x, y)
    ensures At(x, y, Pow2(f.w)) < |mult|
    ensures HoldsEntries(f, mult[At(x, y, Pow2(f.w)) := m], div[At(x, y, Pow2(f.w)) := d], x, y + 1)
  {
    Inside(x, y, Pow2(f.w), Pow2(f.w));
    var mult', div' := mult[At(x, y, Pow2(f.w)) := m], div[At(x, y, Pow2(f.w)) := d];
    forall a: nat, b: nat | f.Has(b) && (a < x || (a == x && b <= y))
      ensures HoldsEntry(f, mult', div', a, b)
    {
      Inside(a, b, Pow2(f.w), Pow2(f.w));
      if a < x || b < y {
        assert HoldsEntry(f, mult, div, a, b);
        if At(a, b, Pow2(f.w)) == At(x, y, Pow2(f.w)) { Unique(a, b, x, y, Pow2(f.w)); }
      }
    }
  }
}

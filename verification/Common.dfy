/** Values shared by every contract: account names, token amounts and 64-bit arithmetic. */
module Common {
  datatype Option<+T> = None | Some(value: T)

  /** An account name, given by the 64-bit value it encodes. */
  type Name = nat

  /** A token symbol, given by its raw value: symbol code and precision. */
  type Symbol = nat

  const TWIG: Symbol := 0x47_4957_5404

  const SYSTEM_ACCOUNT: Name := 0x5530_ea00_0000_0000
  const CHUNKS_ACCOUNT: Name := 0x5530_ea01_0dd4_e180
  const TEAM_ACCOUNT: Name := 0x5530_ea03_3c73_0000
  const WORLD_ACCOUNT: Name := 0x5530_ea03_94bc_5200
  const BANK_ACCOUNT: Name := 0x5530_ea00_e69c_0000
  const BOARD_ACCOUNT: Name := 0x5530_ea00_f435_d200
  const NAMES_ACCOUNT: Name := 0x5530_ea02_6692_b000

  /** Chunks per epoch: half a year of seconds over the odds of a hit. */
  const LUCKY_CHUNKS := 60750

  const TWO_64: int := 0x1_0000_0000_0000_0000
  const TWO_32: int := 0x1_0000_0000
  const MAX_INT64: int := 0x7fff_ffff_ffff_ffff

  /** The largest amount a valid asset may carry: 2^62 - 1. */
  const MAX_AMOUNT: int := 0x3fff_ffff_ffff_ffff

  type int64 = x: int | -MAX_INT64 - 1 <= x <= MAX_INT64

  function Min(a: int, b: int): int {
    if a < b then a else b
  }

  /** What is left of an integer after it is stored in a signed 64-bit word. */
  function Wrap64(x: int): (r: int64)
    ensures -MAX_INT64 - 1 <= x <= MAX_INT64 ==> r == x
    ensures MAX_INT64 < x <= TWO_64 + MAX_INT64 ==> r == x - TWO_64
  {
    if -MAX_INT64 - 1 <= x <= MAX_INT64 then x
    else if MAX_INT64 < x <= TWO_64 + MAX_INT64 then x - TWO_64
    else (x + MAX_INT64 + 1) % TWO_64 - MAX_INT64 - 1
  }

  datatype Asset = Asset(symbol: Symbol, amount: int64)

  /** A symbol code: capital letters, the first one lowest, and nothing after the last. */
  predicate ValidCode(code: nat) {
    65 <= code % 256 <= 90 && (code / 256 == 0 || ValidCode(code / 256))
  }

  /** A symbol as the asset constructor admits it: a valid code above one byte of precision. */
  predicate ValidSymbol(y: Symbol) {
    y < TWO_64 && ValidCode(y / 256)
  }

  /** The number that a symbol's letters stand for, the first one in the lowest byte. */
  function CodeOf(letters: string): nat {
    if letters == "" then 0 else (letters[0] as nat) % 256 + 256 * CodeOf(letters[1..])
  }

  predicate Capitals(letters: string) {
    forall i :: 0 <= i < |letters| ==> 'A' <= letters[i] <= 'Z'
  }

  lemma {:induction false} CapitalsAreValid(letters: string)
    requires letters != "" && Capitals(letters)
    ensures ValidCode(CodeOf(letters))
  {
    if |letters| > 1 {
      CapitalsAreValid(letters[1..]);
      assert CodeOf(letters) / 256 == CodeOf(letters[1..]);
    }
  }

  lemma {:induction false} ValidAreCapitals(code: nat) returns (letters: string)
    requires ValidCode(code)
    ensures letters != "" && Capitals(letters) && CodeOf(letters) == code
  {
    var first := (code % 256) as char;
    if code / 256 == 0 {
      letters := [first];
      assert letters[1..] == "";
    } else {
      var rest := ValidAreCapitals(code / 256);
      letters := [first] + rest;
      assert letters[1..] == rest;
    }
  }

  /** A symbol is valid if and only if it is the code of one or more capital letters above a byte of precision,
      within 64 bits. */
  lemma ValidSymbolIff(y: Symbol)
    ensures ValidSymbol(y) <==>
      exists letters: string :: letters != "" && Capitals(letters) && y / 256 == CodeOf(letters) && y < TWO_64
  {
    if ValidSymbol(y) {
      var letters := ValidAreCapitals(y / 256);
    }
    if letters: string :| letters != "" && Capitals(letters) && y / 256 == CodeOf(letters) && y < TWO_64 {
      CapitalsAreValid(letters);
    }
  }

  lemma TwigIsValid()
    ensures ValidSymbol(TWIG)
  {
    assert ValidCode(0x47) && ValidCode(0x4749) && ValidCode(0x47_4957) && ValidCode(0x4749_5754);
  }

  /** The least element of a nonempty set, the order in which a table is walked. */
  ghost function Least(s: set<nat>): (m: nat)
    requires s != {}
    ensures m in s && forall x :: x in s ==> m <= x
  {
    LeastExists(s);
    var m :| m in s && forall x :: x in s ==> m <= x;
    m
  }

  lemma LeastExists(s: set<nat>)
    requires s != {}
    ensures exists m :: m in s && forall x :: x in s ==> m <= x
  {
    var m := FindLeast(s);
  }

  lemma {:induction false} FindLeast(s: set<nat>) returns (m: nat)
    requires s != {}
    ensures m in s && forall x :: x in s ==> m <= x
    decreases s
  {
    var y :| y in s;
    var smaller := set x | x in s && x < y;
    m := y;
    if x :| x in s && x < y {
      assert x in smaller && y !in smaller;
      m := FindLeast(smaller);
      assert forall z :: z in s && z < y ==> z in smaller;
    }
  }
}

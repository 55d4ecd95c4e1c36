/** Model of scrypt.go: the mutable scrypt cost configuration, the package's
    default configuration, and the hasher that wraps a configuration. */
module Scrypt {
  import opened Utils
  import opened Fmt

  /** The rounds and N that SetRounds stores together. */
  datatype Cost = Cost(rounds: int64, n: int64)

  /** The cost SetRounds falls back to when 2^rounds is not a positive int. */
  const FALLBACK_ROUNDS: int64 := 16
  const FALLBACK_N: int64 := 65536

  /** How ScryptConf.String begins. */
  const STRING_LEAD: string := "&{rounds: "
  const R_LEAD: string := ", R: "
  const P_LEAD: string := ", P: "
  const KEYLEN_LEAD: string := ", KeyLen: "

  /** N is positive and exactly 2^rounds. */
  ghost predicate ValidCost(c: Cost) {
    c.rounds >= 0 && c.n > 0 && c.n as int == Power(2, c.rounds as nat)
  }

  /** What SetRounds(rounds) stores: rounds and Pow(2, rounds) when that
      power is positive, and the fallback 16 / 65536 otherwise. Either way N
      is 2^rounds. */
  function CostFor(rounds: int64): (c: Cost)
    requires rounds >= 0
    ensures ValidCost(c)
  {
    PowTwoPositiveIff(rounds);
    PowersOfTwo();
    var pow := WrappedPower(2, rounds);
    if pow <= 0 then Cost(FALLBACK_ROUNDS, FALLBACK_N)
    else
      PowTwoExact(rounds);
      Cost(rounds, pow)
  }

  /** Up to 62 rounds are kept as given, with N = 2^rounds (0 rounds give
      N = 1). */
  lemma CostForKeepsRounds(rounds: int64)
    requires 0 <= rounds <= 62
    ensures CostFor(rounds).rounds == rounds
    ensures CostFor(rounds).n as int == Power(2, rounds as nat)
  {
    PowTwoExact(rounds);
  }

  /** From 63 rounds on, 2^rounds wraps to a non-positive int and the
      fallback cost is used instead. */
  lemma CostForFallsBack(rounds: int64)
    requires rounds >= 63
    ensures CostFor(rounds) == Cost(16, 65536)
  {
    PowTwoPositiveIff(rounds);
  }

  /** The fallback is taken exactly when rounds exceeds 62. */
  lemma CostForFallbackIff(rounds: int64)
    requires rounds >= 0
    ensures CostFor(rounds).rounds != rounds <==> rounds > 62
  {
    if rounds <= 62 {
      CostForKeepsRounds(rounds);
    } else {
      CostForFallsBack(rounds);
    }
  }

  // ---------------------------------------------------------------------------
  // ScryptConf
  // ---------------------------------------------------------------------------

  /** All parameters for scrypt. The cost is kept as rounds, with N = 2^rounds
      stored beside it; only SetRounds changes the two. */
  class ScryptConf {
    var n: int64
    var rounds: int64
    var R: int64
    var P: int64
    var KeyLen: int64

    ghost predicate Valid()
      reads this
    {
      ValidCost(Cost(rounds, n))
    }

    /** The composite literal `&ScryptConf{...}`: every field as given. */
    constructor (n: int64, rounds: int64, r: int64, p: int64, keyLen: int64)
      ensures this.n == n && this.rounds == rounds
      ensures R == r && P == p && KeyLen == keyLen
    {
      this.n := n;
      this.rounds := rounds;
      R, P, KeyLen := r, p, keyLen;
    }

    /** Sets rounds and N = 2^rounds, falling back to 16 / 65536 when the
        power does not come out positive. Nothing but rounds and N changes. */
    method SetRounds(rounds: int64)
      requires rounds >= 0
      modifies this`rounds, this`n
      ensures Cost(this.rounds, n) == CostFor(rounds)
      ensures Valid()
      ensures R == old(R) && P == old(P) && KeyLen == old(KeyLen)
    {
      var pow := Pow(2, rounds);
      var asInt := pow;  // int(pow): the identity on a 64-bit platform
      var newRounds := rounds;
      if asInt <= 0 {
        asInt := FALLBACK_N;
        newRounds := FALLBACK_ROUNDS;
      }
      this.rounds := newRounds;
      n := asInt;
    }

    /** A fresh config with the same five fields. */
    method Copy() returns (c: ScryptConf)
      ensures fresh(c)
      ensures c.n == n && c.rounds == rounds
      ensures c.R == R && c.P == P && c.KeyLen == KeyLen
    {
      c := new ScryptConf(n, rounds, R, P, KeyLen);
    }

    /** The N parameter of scrypt: 2^rounds for every valid config. */
    function GetN(): (r: int64)
      reads this
      ensures r == n
      ensures Valid() ==> r > 0 && r as int == Power(2, rounds as nat)
    {
      n
    }

    /** The rounds parameter: the exponent of N for every valid config. */
    function GetRounds(): (r: int64)
      reads this
      ensures r == rounds
      ensures Valid() ==> r >= 0 && n as int == Power(2, r as nat)
    {
      rounds
    }

    /** The pieces of the `&{rounds: %d, R: %d, P: %d, KeyLen: %d}` format
        with its verbs filled in; N is not among them. */
    function Parts(): seq<string>
      reads this
    {
      [STRING_LEAD, FormatInt(rounds as int), R_LEAD, FormatInt(R as int),
       P_LEAD, FormatInt(P as int), KEYLEN_LEAD, FormatInt(KeyLen as int), "}"]
    }

    /** The human-readable form: every piece of Parts() sits at its offset,
        and the four decimal pieces read back as rounds, R, P and KeyLen. */
    function String(): (s: string)
      reads this
      ensures |s| == TotalLength(Parts())
      ensures |s| > |STRING_LEAD| && s[..|STRING_LEAD|] == STRING_LEAD && s[|s| - 1] == '}'
      ensures forall k :: 0 <= k < |Parts()| ==> PieceAt(s, Parts(), k)
      ensures ParseInt(Parts()[1]) == rounds as int && ParseInt(Parts()[3]) == R as int
      ensures ParseInt(Parts()[5]) == P as int && ParseInt(Parts()[7]) == KeyLen as int
    {
      var parts := Parts();
      ConcatPieces(parts);
      FormatIntRoundTrip(rounds as int);
      FormatIntRoundTrip(R as int);
      FormatIntRoundTrip(P as int);
      FormatIntRoundTrip(KeyLen as int);
      OffsetStep(parts, 8);
      assert PieceAt(Concat(parts), parts, 0);
      assert PieceAt(Concat(parts), parts, 8);
      Concat(parts)
    }
  }

  /** N does not appear in the text: configs that differ only in N print
      alike. */
  lemma StringIgnoresN(a: ScryptConf, b: ScryptConf)
    requires a.rounds == b.rounds && a.R == b.R && a.P == b.P && a.KeyLen == b.KeyLen
    ensures a.String() == b.String()
  {
  }

  /** A new config with the given rounds (through SetRounds) and R, P and
      KeyLen stored unchecked. */
  method NewScryptConf(rounds: int64, r: int64, p: int64, keyLen: int64) returns (conf: ScryptConf)
    requires rounds >= 0
    ensures fresh(conf) && conf.Valid()
    ensures Cost(conf.rounds, conf.n) == CostFor(rounds)
    ensures conf.R == r && conf.P == p && conf.KeyLen == keyLen
  {
    conf := new ScryptConf(0, 0, r, p, keyLen);
    conf.SetRounds(rounds);
  }

  /** The package-level state: the variable DefaultScryptConf. */
  class Globals {
    var DefaultScryptConf: ScryptConf

    /** Package initialisation: DefaultScryptConf = NewScryptConf(16, 8, 1, 64). */
    constructor ()
      ensures fresh(DefaultScryptConf) && DefaultScryptConf.Valid()
      ensures DefaultScryptConf.rounds == 16 && DefaultScryptConf.n == 65536
      ensures DefaultScryptConf.R == 8 && DefaultScryptConf.P == 1 && DefaultScryptConf.KeyLen == 64
    {
      CostForKeepsRounds(16);
      PowersOfTwo();
      var conf := NewScryptConf(16, 8, 1, 64);
      DefaultScryptConf := conf;
    }
  }

  // ---------------------------------------------------------------------------
  // ScryptHasher
  // ---------------------------------------------------------------------------

  /** A Hasher using scrypt; conf is the embedded *ScryptConf. */
  class ScryptHasher {
    var conf: ScryptConf

    constructor (conf: ScryptConf)
      ensures this.conf == conf
    {
      this.conf := conf;
    }

    /** A fresh hasher around a fresh copy of the config. */
    method Copy() returns (h: ScryptHasher)
      ensures fresh(h) && fresh(h.conf)
      ensures h.conf.n == conf.n && h.conf.rounds == conf.rounds
      ensures h.conf.R == conf.R && h.conf.P == conf.P && h.conf.KeyLen == conf.KeyLen
    {
      var c := conf.Copy();
      h := new ScryptHasher(c);
    }
  }

  /** A hasher around the given config itself, or around the package's
      DefaultScryptConf object when none is given; neither is copied. */
  method NewScryptHasher(globals: Globals, conf: ScryptConf?) returns (h: ScryptHasher)
    ensures fresh(h)
    ensures h.conf == if conf == null then globals.DefaultScryptConf else conf
  {
    var c := conf;
    if c == null {
      c := globals.DefaultScryptConf;
    }
    h := new ScryptHasher(c);
  }

  /** Setting the rounds through a hasher built without a config changes
      the package default itself: the hasher's config is that object. */
  method DefaultIsShared(globals: Globals, r: int64) returns (shared: ScryptHasher)
    requires r >= 0
    modifies globals.DefaultScryptConf
    ensures shared.conf == globals.DefaultScryptConf
    ensures Cost(globals.DefaultScryptConf.rounds, globals.DefaultScryptConf.n) == CostFor(r)
    ensures globals.DefaultScryptConf.R == old(globals.DefaultScryptConf.R)
    ensures globals.DefaultScryptConf.P == old(globals.DefaultScryptConf.P)
    ensures globals.DefaultScryptConf.KeyLen == old(globals.DefaultScryptConf.KeyLen)
  {
    shared := NewScryptHasher(globals, null);
    shared.conf.SetRounds(r);
  }

  /** Setting the rounds through a copy of such a hasher leaves the package
      default alone. */
  method CopiedHasherIsIndependent(globals: Globals, r: int64) returns (copied: ScryptHasher)
    requires r >= 0
    ensures fresh(copied.conf)
    ensures Cost(copied.conf.rounds, copied.conf.n) == CostFor(r)
    ensures unchanged(globals.DefaultScryptConf)
  {
    var shared := NewScryptHasher(globals, null);
    copied := shared.Copy();
    copied.conf.SetRounds(r);
  }

  /** A hasher built with a config shares it: setting the rounds through the
      hasher changes the caller's config. */
  method GivenConfIsShared(globals: Globals, conf: ScryptConf, r: int64) returns (h: ScryptHasher)
    requires r >= 0
    modifies conf
    ensures h.conf == conf
    ensures Cost(conf.rounds, conf.n) == CostFor(r)
    ensures conf.R == old(conf.R) && conf.P == old(conf.P) && conf.KeyLen == old(conf.KeyLen)
  {
    h := NewScryptHasher(globals, conf);
    h.conf.SetRounds(r);
  }

  /** A copied config is independent of its original: setting its rounds
      leaves the original unchanged. */
  method CopyIsIndependent(conf: ScryptConf, r: int64) returns (copy: ScryptConf)
    requires r >= 0
    ensures fresh(copy)
    ensures Cost(copy.rounds, copy.n) == CostFor(r)
    ensures copy.R == conf.R && copy.P == conf.P && copy.KeyLen == conf.KeyLen
    ensures unchanged(conf)
  {
    copy := conf.Copy();
    copy.SetRounds(r);
  }
}

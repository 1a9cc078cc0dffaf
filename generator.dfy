/**
 * The stateful part of bokeh's session-id logic: the module-wide generator
 * that `_get_random_string` draws from, its reseeding when the OS source is
 * unavailable, and the two public generators built on it.
 */
module Generator {
  import opened Bytes
  import opened SessionId

  /**
   * What `random.seed(sha256(state, clock, key))` makes the fallback
   * generator produce, as a function of the normalised secret key; the
   * generator's state and the wall clock are outside the model.
   */
  type Reseeder = Option<seq<byte>> -> (nat -> nat)

  /**
   * `n` draws from `chars`, the `k`-th taking the generator's output number
   * `from + k` modulo the number of characters (`random.choice`).
   */
  function Picks(chars: string, stream: nat -> nat, from: nat, n: nat): (s: string)
    requires n == 0 || |chars| > 0
    ensures |s| == n
    ensures forall k :: 0 <= k < n ==> s[k] in chars
  {
    seq(n, k requires 0 <= k < n => chars[stream(from + k) % |chars|])
  }

  /** One more draw extends a run of draws by one character. */
  lemma PicksNext(chars: string, stream: nat -> nat, from: nat, n: nat)
    requires |chars| > 0
    ensures Picks(chars, stream, from, n + 1)
         == Picks(chars, stream, from, n) + [chars[stream(from + n) % |chars|]]
  {
  }

  /** Draws from the default alphabet are letters and digits and never the separator. */
  lemma DefaultPicksAlphanumeric(stream: nat -> nat, from: nat, n: nat)
    ensures forall k :: 0 <= k < n ==> IsAlphanumeric(Picks(DefaultChars, stream, from, n)[k])
    ensures Separator !in Picks(DefaultChars, stream, from, n)
  {
    DefaultCharsAlphanumeric();
    var s := Picks(DefaultChars, stream, from, n);
    forall k | 0 <= k < n ensures IsAlphanumeric(s[k]) {
      var j :| 0 <= j < |DefaultChars| && DefaultChars[j] == s[k];
    }
  }

  /** The process-wide pseudo-random generator. */
  class Rng {
    /** Whether the OS-backed source was found at start-up; fixed for the process. */
    const usingSysrandom: bool
    /** The generator's outputs since it was last seeded: output number `k` is `stream(k)`. */
    var stream: nat -> nat
    /** How many outputs have been taken since the generator was last seeded. */
    var drawn: nat
    /** How many times the fallback generator has been reseeded. */
    ghost var reseeds: nat

    constructor (usingSysrandom: bool, stream: nat -> nat)
      ensures this.usingSysrandom == usingSysrandom && this.stream == stream
      ensures drawn == 0 && reseeds == 0
    {
      this.usingSysrandom := usingSysrandom;
      this.stream := stream;
      drawn := 0;
      reseeds := 0;
    }

    /** The outputs the generator gives after `_reseed_if_needed`. */
    ghost function StreamAfterReseed(key: Option<Data>, reseed: Reseeder): nat -> nat
      reads this
    {
      if usingSysrandom then stream else reseed(EnsureBytes(key))
    }

    /** The output number the generator continues from after `_reseed_if_needed`. */
    ghost function DrawnAfterReseed(): nat
      reads this
    {
      if usingSysrandom then drawn else 0
    }

    /** `_reseed_if_needed`: only the fallback generator is reseeded, from the normalised key. */
    method ReseedIfNeeded(key: Option<Data>, reseed: Reseeder)
      modifies this
      ensures stream == old(StreamAfterReseed(key, reseed)) && drawn == old(DrawnAfterReseed())
      ensures reseeds == if usingSysrandom then old(reseeds) else old(reseeds) + 1
    {
      var k := EnsureBytes(key);
      if !usingSysrandom {
        stream := reseed(k);
        drawn := 0;
        reseeds := reseeds + 1;
      }
    }

    /** `random.choice`: one output of the generator picks a character of `chars`. */
    method Choice(chars: string) returns (c: char)
      requires |chars| > 0
      modifies this
      ensures c == chars[old(stream(drawn)) % |chars|] && c in chars
      ensures stream == old(stream) && drawn == old(drawn) + 1 && reseeds == old(reseeds)
    {
      c := chars[stream(drawn) % |chars|];
      drawn := drawn + 1;
    }

    /**
     * `_get_random_string`: reseed if needed, then draw `length` characters
     * of `allowedChars` one at a time (none for a negative length).
     */
    method GetRandomString(length: int, allowedChars: string, key: Option<Data>, reseed: Reseeder)
      returns (s: string)
      requires length <= 0 || |allowedChars| > 0
      modifies this
      ensures |s| == (if length < 0 then 0 else length)
      ensures forall k :: 0 <= k < |s| ==> s[k] in allowedChars
      ensures stream == old(StreamAfterReseed(key, reseed))
      ensures s == Picks(allowedChars, stream, old(DrawnAfterReseed()), |s|)
      ensures drawn == old(DrawnAfterReseed()) + |s|
      ensures reseeds == if usingSysrandom then old(reseeds) else old(reseeds) + 1
    {
      var k := AsKey(EnsureBytes(key));
      ReseedIfNeeded(k, reseed);
      ghost var from := drawn;
      s := [];
      var i := 0;
      while i < length
        invariant 0 <= i && (length < 0 ==> i == 0) && (length >= 0 ==> i <= length)
        invariant stream == old(StreamAfterReseed(key, reseed))
        invariant reseeds == if usingSysrandom then old(reseeds) else old(reseeds) + 1
        invariant drawn == from + i
        invariant s == Picks(allowedChars, stream, from, i)
      {
        PicksNext(allowedChars, stream, from, i);
        var c := Choice(allowedChars);
        s := s + [c];
        i := i + 1;
      }
    }

    /** `generate_secret_key`: 44 letters and digits drawn from the generator. */
    method GenerateSecretKey(key: Option<Data>, reseed: Reseeder) returns (s: string)
      modifies this
      ensures |s| == DefaultLength
      ensures forall k :: 0 <= k < |s| ==> IsAlphanumeric(s[k])
      ensures stream == old(StreamAfterReseed(key, reseed))
      ensures s == Picks(DefaultChars, stream, old(DrawnAfterReseed()), DefaultLength)
      ensures drawn == old(DrawnAfterReseed()) + DefaultLength
      ensures reseeds == if usingSysrandom then old(reseeds) else old(reseeds) + 1
    {
      DefaultCharsAlphanumeric();
      s := GetRandomString(DefaultLength, DefaultChars, key, reseed);
      DefaultPicksAlphanumeric(stream, old(DrawnAfterReseed()), DefaultLength);
    }

    /**
     * `generate_session_id`: a 44-character base id, signed when `signed` is
     * set. Signing without a key fails, after the base id has been drawn.
     */
    method GenerateSessionId(key: Option<Data>, signed: bool, hmac: Hmac, reseed: Reseeder)
      returns (r: Result<string, Error>)
      modifies this
      ensures stream == old(StreamAfterReseed(key, reseed))
      ensures drawn == old(DrawnAfterReseed()) + DefaultLength
      ensures reseeds == if usingSysrandom then old(reseeds) else old(reseeds) + 1
      ensures r == SessionIdFor(Picks(DefaultChars, stream, old(DrawnAfterReseed()), DefaultLength), key, signed, hmac)
      ensures !signed ==> r.Success? && |r.value| == DefaultLength && Separator !in r.value
      ensures signed ==> (r.Failure? <==> key.None?)
      ensures signed && r.Success? ==> |r.value| == 88
      ensures r.Success? ==> CheckSessionIdSignature(r.value, key, signed, hmac) == Success(true)
      ensures r.Success? ==> CheckSessionIdSignatureOnBytes(r.value, key, signed, hmac) == Success(true)
    {
      DefaultCharsAlphanumeric();
      var k := AsKey(EnsureBytes(key));
      var baseId := GetRandomString(DefaultLength, DefaultChars, k, reseed);
      DefaultPicksAlphanumeric(stream, old(DrawnAfterReseed()), DefaultLength);
      if signed {
        match Signature(baseId, k, hmac)
        case Failure(e) =>
          r := Failure(e);
        case Success(sig) =>
          r := Success(baseId + [Separator] + sig);
          SignedSessionIdVerifies(baseId, key, key, hmac);
          OnBytesAcceptsExactlySigned(baseId, sig, key, hmac);
      } else {
        r := Success(baseId);
      }
    }
  }
}

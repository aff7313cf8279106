/** Hashing and verification by one caller, with the key derivation as any function. */
module PasswordService {
  import opened Domain
  import opened Base64
  import opened PasswordHash
  import HashGate

  /** Derives a key from input and salt, or panics. */
  type Derivation = (seq<byte>, seq<byte>) -> Option<seq<byte>>

  /** What reading a fresh salt does. */
  datatype SaltReading = Read(salt: seq<byte>) | ReadError | ReadPanic

  /** The context is cancelled from the `since`-th check on. */
  datatype Context = Context(since: nat) {
    predicate Cancelled(check: nat) {
      since <= check
    }
  }

  datatype Answer<T> = Ok(value: T) | Cancelled | PasswordRefused | SaltFailed | Malformed | Panicked

  /** What a stored hash says about a password. */
  function Matches(derive: Derivation, pepper: seq<byte>, password: seq<byte>, encoded: string): Option<bool> {
    match Parse(encoded)
    case Some(parsed) => Some(derive(password + pepper, parsed.salt) == Some(parsed.derivedKey))
    case None => None
  }

  /** A hash verifies exactly the passwords that derive the same key under its salt;
      in particular it verifies the password it was made from. */
  lemma HashThenVerify(derive: Derivation, pepper: seq<byte>, password: seq<byte>, other: seq<byte>, salt: seq<byte>)
    requires |salt| == SALT_LENGTH
    requires derive(password + pepper, salt).Some? && |derive(password + pepper, salt).value| == KEY_LENGTH
    ensures var encoded := Print(salt, derive(password + pepper, salt).value);
            && Matches(derive, pepper, password, encoded) == Some(true)
            && Matches(derive, pepper, other, encoded)
               == Some(derive(other + pepper, salt) == derive(password + pepper, salt))
  {
    ParsePrint(salt, derive(password + pepper, salt).value);
  }

  class Service {
    const policy: seq<byte> -> bool
    const pepper: seq<byte>
    const capacity: nat
    var occupied: nat

    ghost predicate Valid()
      reads this
    {
      0 < capacity <= HashGate.MAXIMUM_CONCURRENCY && occupied <= capacity
    }

    constructor (policy: seq<byte> -> bool, pepper: seq<byte>, maxConcurrency: nat)
      requires 0 < maxConcurrency <= HashGate.MAXIMUM_CONCURRENCY
      ensures Valid() && this.policy == policy && this.pepper == pepper && capacity == maxConcurrency && occupied == 0
    {
      this.policy := policy;
      this.pepper := pepper;
      this.capacity := maxConcurrency;
      this.occupied := 0;
    }

    /** A caller that finds the gate full waits, here, until its context ends. */
    method Acquire(context: Context, check: nat) returns (admitted: bool)
      requires Valid()
      modifies this
      ensures Valid() && occupied == if admitted then old(occupied) + 1 else old(occupied)
      ensures admitted <==> !context.Cancelled(check) && !context.Cancelled(check + 1) && old(occupied) < capacity
    {
      if context.Cancelled(check) {
        return false;
      }
      if occupied == capacity {
        return false;
      }
      occupied := occupied + 1;
      if context.Cancelled(check + 1) {
        Release();
        return false;
      }
      admitted := true;
    }

    method Release()
      requires Valid() && occupied > 0
      modifies this
      ensures Valid() && occupied == old(occupied) - 1
    {
      occupied := occupied - 1;
    }

    /** The slot is returned on every exit once it is held: the deferred release runs
        after an error, a cancellation and a panic alike. */
    method Hash(context: Context, password: seq<byte>, reading: SaltReading, derive: Derivation)
      returns (answer: Answer<string>)
      requires Valid() && (reading.Read? ==> |reading.salt| == SALT_LENGTH)
      modifies this
      ensures Valid() && occupied == old(occupied)
      ensures answer.PasswordRefused? <==> !context.Cancelled(0) && !policy(password)
      ensures var admitted := policy(password) && !context.Cancelled(2) && old(occupied) < capacity;
              && (answer.SaltFailed? <==> admitted && reading.ReadError?)
              && (answer.Panicked? <==>
                    admitted && (reading.ReadPanic?
                                 || (reading.Read? && !context.Cancelled(3)
                                     && derive(password + pepper, reading.salt).None?)))
              && (answer.Ok? <==>
                    admitted && !context.Cancelled(3) && reading.Read?
                    && derive(password + pepper, reading.salt).Some?)
      ensures answer.Ok? ==> answer.value == Print(reading.salt, derive(password + pepper, reading.salt).value)
      ensures !answer.Malformed?
    {
      if context.Cancelled(0) {
        return Cancelled;
      }
      if !policy(password) {
        return PasswordRefused;
      }
      var admitted := Acquire(context, 1);
      if !admitted {
        return Cancelled;
      }
      match reading {
        case ReadPanic => answer := Panicked;
        case ReadError => answer := SaltFailed;
        case Read(salt) =>
          if context.Cancelled(3) {
            answer := Cancelled;
          } else {
            var key := derive(password + pepper, salt);
            answer := if key.Some? then Ok(Print(salt, key.value)) else Panicked;
          }
      }
      Release();
    }

    method Verify(context: Context, password: seq<byte>, encoded: string, derive: Derivation)
      returns (answer: Answer<bool>)
      requires Valid()
      modifies this
      ensures Valid() && occupied == old(occupied)
      ensures answer.PasswordRefused? <==> !context.Cancelled(0) && !policy(password)
      ensures answer.Malformed? <==> !context.Cancelled(0) && policy(password) && Parse(encoded).None?
      ensures var admitted := policy(password) && Parse(encoded).Some? && !context.Cancelled(3) && old(occupied) < capacity;
              && (answer.Panicked? <==> admitted && derive(password + pepper, Parse(encoded).value.salt).None?)
              && (answer.Ok? <==> admitted && derive(password + pepper, Parse(encoded).value.salt).Some?)
      ensures answer.Ok? ==> Matches(derive, pepper, password, encoded) == Some(answer.value)
      ensures !answer.SaltFailed?
    {
      if context.Cancelled(0) {
        return Cancelled;
      }
      if !policy(password) {
        return PasswordRefused;
      }
      var parsed := ParseArgon2idHash(encoded);
      if parsed.None? {
        return Malformed;
      }
      var admitted := Acquire(context, 1);
      if !admitted {
        return Cancelled;
      }
      if context.Cancelled(3) {
        answer := Cancelled;
      } else {
        var key := derive(password + pepper, parsed.value.salt);
        answer := if key.Some? then Ok(key.value == parsed.value.derivedKey) else Panicked;
      }
      Release();
    }
  }
}

/** A stand-in for the BCrypt password encoder (the `$2a$` variant). Like
    BCrypt, it derives the key from the password followed by one NUL
    character, repeated until 72 characters are filled, so it reads at most
    72 characters of the password. Unlike BCrypt it has no salt and no cost
    rounds: a hash is the prefix every such hash carries followed by the key. */
module Passwords {

  const Prefix: string := "$2a$"

  /** The length of the key BCrypt derives from a password. */
  const MaxLength: nat := 72

  /** The key the encoder reads: `raw` and a NUL character, cycled to 72
      characters. */
  function KeyOf(raw: string): (r: string)
    ensures |r| == MaxLength
  {
    var cycle := raw + ['\0'];
    seq(MaxLength, i => cycle[i % |cycle|])
  }

  /** The key starts with the first 72 characters of the password, and a
      shorter password is followed in it by a NUL character. */
  lemma KeyOfStartsWithPassword(raw: string)
    ensures |raw| >= MaxLength ==> KeyOf(raw) == raw[..MaxLength]
    ensures |raw| < MaxLength ==> KeyOf(raw)[..|raw|] == raw && KeyOf(raw)[|raw|] == '\0'
  {
    var cycle := raw + ['\0'];
    forall i | 0 <= i < MaxLength && i <= |raw|
      ensures KeyOf(raw)[i] == cycle[i]
    {
      assert i % |cycle| == i;
    }
  }

  /** `passwordEncoder.encode(raw)`. */
  function Encode(raw: string): (r: string)
    ensures |r| == |Prefix| + MaxLength
    ensures Prefix <= r
  {
    Prefix + KeyOf(raw)
  }

  /** `passwordEncoder.matches(raw, encoded)`. */
  predicate Matches(raw: string, encoded: string)
  {
    encoded == Encode(raw)
  }

  /** A password matches its own encoding. */
  lemma MatchesOwnEncoding(raw: string)
    ensures Matches(raw, Encode(raw))
  {
  }

  /** A password matches another password's encoding exactly when the two
      give the same key. */
  lemma MatchesExactlyOnKey(raw: string, other: string)
    ensures Matches(raw, Encode(other)) <==> KeyOf(raw) == KeyOf(other)
  {
    if Matches(raw, Encode(other)) {
      assert Encode(raw)[|Prefix|..] == KeyOf(raw);
      assert Encode(other)[|Prefix|..] == KeyOf(other);
    }
  }

  /** Among passwords of at most 72 characters that contain no NUL character,
      a password matches no other password's encoding. */
  lemma MatchesOnlyOwnEncoding(raw: string, other: string)
    requires |raw| <= MaxLength && |other| <= MaxLength
    requires '\0' !in raw && '\0' !in other
    requires Matches(raw, Encode(other))
    ensures raw == other
  {
    MatchesExactlyOnKey(raw, other);
    if |raw| < |other| {
      KeyDeterminesShortPassword(raw, other);
    } else if |other| < |raw| {
      KeyDeterminesShortPassword(other, raw);
    } else {
      KeyOfStartsWithPassword(raw);
      KeyOfStartsWithPassword(other);
      assert raw == KeyOf(raw)[..|raw|];
      assert other == KeyOf(other)[..|other|];
    }
  }

  /** With no NUL character in either password, the shorter of two passwords
      of at most 72 characters cannot share the longer one's key. */
  lemma KeyDeterminesShortPassword(raw: string, other: string)
    requires |raw| < |other| <= MaxLength
    requires '\0' !in other
    ensures KeyOf(raw) != KeyOf(other)
  {
    KeyOfStartsWithPassword(raw);
    KeyOfStartsWithPassword(other);
    assert KeyOf(raw)[|raw|] == '\0';
    assert KeyOf(other)[..|other|][|raw|] == other[|raw|];
  }

  /** Two longer passwords that share their first 72 characters match each
      other's encoding, though they differ. */
  lemma LongPasswordsCollide(common: string, tail1: string, tail2: string)
    requires |common| == MaxLength
    ensures Matches(common + tail1, Encode(common + tail2))
  {
    KeyOfStartsWithPassword(common + tail1);
    KeyOfStartsWithPassword(common + tail2);
    assert (common + tail1)[..MaxLength] == common;
    assert (common + tail2)[..MaxLength] == common;
  }

  /** The NUL that ends the key makes "a" and "a" NUL "a" share a key, so
      each matches the other's encoding. */
  lemma NulPasswordsCollide()
    ensures "a\0a" != "a"
    ensures Matches("a\0a", Encode("a"))
  {
    var short := "a";
    var long := "a\0a";
    forall i | 0 <= i < MaxLength
      ensures KeyOf(long)[i] == KeyOf(short)[i]
    {
      assert KeyOf(long)[i] == (long + ['\0'])[i % 4];
      assert KeyOf(short)[i] == (short + ['\0'])[i % 2];
      assert i % 4 % 2 == i % 2;
    }
  }
}

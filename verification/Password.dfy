/**
  Stored passwords: the text form of an Argon2id hash, and checking a password against
  it.  The hash function itself is a parameter.
*/
module Password {
  import opened Common
  import opened Text
  import opened Base64

  const TIME: nat := 3
  const MEMORY_KIB: nat := 64 * 1024
  const THREADS: nat := 2
  const KEY_LEN: nat := 32
  const SALT_LEN: nat := 16
  const MIN_LEN: nat := 8
  const MAX_LEN: nat := 200

  datatype Failure = TooShort | TooLong | InvalidHash

  /** Password, salt and length of the key to derive. */
  type Argon2 = (Bytes, Bytes, nat) -> Bytes

  ghost predicate DerivesFullKeys(argon2: Argon2) {
    forall p, s, n :: |argon2(p, s, n)| == n
  }

  // ----- Printing -----

  function Parameters(memory: nat, time: nat, threads: nat): string {
    "m=" + (Decimal(memory) + (",t=" + (Decimal(time) + (",p=" + Decimal(threads)))))
  }

  /** The text starts with a dollar sign: its first piece is empty. */
  function Print(salt: Bytes, hash: Bytes): string {
    Join(Pieces(Parameters(MEMORY_KIB, TIME, THREADS), salt, hash), '$')
  }

  function Pieces(parameters: string, salt: Bytes, hash: Bytes): seq<string> {
    ["", "argon2id", "v=19", parameters, Encode(salt, Std), Encode(hash, Std)]
  }

  function HashPassword(argon2: Argon2, password: Bytes, salt: Bytes): (r: Result<string, Failure>)
    requires |salt| == SALT_LEN
    ensures r == Err(TooShort) <==> |password| < 8
    ensures r == Err(TooLong) <==> |password| > 200
  {
    if |password| < MIN_LEN then Err(TooShort)
    else if |password| > MAX_LEN then Err(TooLong)
    else Ok(Print(salt, argon2(password, salt, KEY_LEN)))
  }

  lemma SmallDecimals()
    ensures Decimal(2) == "2" && Decimal(3) == "3" && Decimal(65536) == "65536"
  {
    assert Decimal(6) == "6" && Decimal(65) == "65" && Decimal(655) == "655" && Decimal(6553) == "6553";
  }

  lemma JoinedPieces(parameters: string, salt: Bytes, hash: Bytes)
    ensures Join(Pieces(parameters, salt, hash), '$')
            == "$argon2id$v=19$" + parameters + "$" + Encode(salt, Std) + "$" + Encode(hash, Std)
  {
    hide Encode;
    JoinedSix("", "argon2id", "v=19", parameters, Encode(salt, Std), Encode(hash, Std));
    assert "" + "$" + "argon2id" + "$" + "v=19" + "$" == "$argon2id$v=19$";
  }

  /** What is stored for a password of 8 to 200 bytes: its costs, its salt, and its key of 32 bytes. */
  lemma StoredText(argon2: Argon2, password: Bytes, salt: Bytes)
    requires |salt| == 16 && 8 <= |password| <= 200
    ensures HashPassword(argon2, password, salt)
            == Ok("$argon2id$v=19$" + "m=65536,t=3,p=2" + "$" + Encode(salt, Std) + "$"
                  + Encode(argon2(password, salt, 32), Std))
  {
    SmallDecimals();
    JoinedPieces(Parameters(MEMORY_KIB, TIME, THREADS), salt, argon2(password, salt, KEY_LEN));
    hide Encode, Join, Decimal;
    assert Parameters(65536, 3, 2) == "m=65536,t=3,p=2";
  }

  // ----- Parsing -----

  /** A literal piece of a scan format: what follows it, if the text starts with it. */
  function Literal(s: string, lit: string): Option<string> {
    if lit <= s then Some(s[|lit|..]) else None
  }

  /** A literal piece followed by an integer. */
  function Field(s: string, lit: string): Option<(int, string)> {
    match Literal(s, lit)
    case None => None
    case Some(t) => ScanInt(t)
  }

  /** The scan of the three parameters; whatever follows the last integer is not looked at. */
  function ScanParameters(s: string): Option<(int, int, int)> {
    match Field(s, "m=")
    case None => None
    case Some((mem, s1)) =>
      match Field(s1, ",t=")
      case None => None
      case Some((time, s2)) =>
        match Field(s2, ",p=")
        case None => None
        case Some((threads, _)) => Some((mem, time, threads))
  }

  function Parse(encoded: string): (r: Result<(Bytes, Bytes), Failure>)
    ensures r.Ok? ==> |r.value.0| == SALT_LEN && |r.value.1| == KEY_LEN
    ensures r.Err? ==> r.error == InvalidHash
  {
    ParseParts(Split(encoded, '$'))
  }

  function ParseParts(parts: seq<string>): (r: Result<(Bytes, Bytes), Failure>)
    ensures r.Ok? ==> |r.value.0| == SALT_LEN && |r.value.1| == KEY_LEN
    ensures r.Err? ==> r.error == InvalidHash
  {
    if |parts| != 6 || parts[1] != "argon2id" || parts[2] != "v=19" then Err(InvalidHash)
    else CheckFields(ScanParameters(parts[3]), Decode(parts[4], Std), Decode(parts[5], Std))
  }

  function CheckFields(parameters: Option<(int, int, int)>, salt: Option<Bytes>, hash: Option<Bytes>)
    : (r: Result<(Bytes, Bytes), Failure>)
    ensures r.Ok? ==> |r.value.0| == SALT_LEN && |r.value.1| == KEY_LEN
    ensures r.Err? ==> r.error == InvalidHash
  {
    if parameters != Some((MEMORY_KIB, TIME, THREADS)) then Err(InvalidHash)
    else if salt.None? || |salt.value| != SALT_LEN || hash.None? || |hash.value| != KEY_LEN then Err(InvalidHash)
    else Ok((salt.value, hash.value))
  }

  function VerifyPassword(argon2: Argon2, password: Bytes, encoded: string): (r: Result<bool, Failure>)
    ensures encoded == "" ==> r == Ok(false)
    ensures r.Err? <==> encoded != "" && Parse(encoded).Err?
  {
    if encoded == "" then Ok(false)
    else
      match Parse(encoded)
      case Err(e) => Err(e)
      case Ok((salt, hash)) => Ok(|password| <= MAX_LEN && argon2(password, salt, |hash|) == hash)
  }

  // ----- What is accepted -----

  lemma JoinedSix(a: string, b: string, c: string, d: string, e: string, f: string)
    ensures Join([a, b, c, d, e, f], '$') == a + "$" + b + "$" + c + "$" + d + "$" + e + "$" + f
  {
    var p := [a, b, c, d, e, f];
    assert p[1..][1..] == p[2..] && p[2..][1..] == p[3..] && p[3..][1..] == p[4..] && p[4..][1..] == p[5..];
    assert Join(p[5..], '$') == f;
    assert Join(p[4..], '$') == e + ['$'] + f;
    assert Join(p[3..], '$') == d + ['$'] + Join(p[4..], '$');
    assert Join(p[2..], '$') == c + ['$'] + Join(p[3..], '$');
    assert Join(p[1..], '$') == b + ['$'] + Join(p[2..], '$');
  }

  /** The text holds these fields in the stored form; whatever comes before its first dollar sign is not looked at. */
  ghost predicate Holds(encoded: string, first: string, parameters: string, salt: string, hash: string) {
    && '$' !in first && '$' !in parameters && '$' !in salt && '$' !in hash
    && encoded == first + "$" + "argon2id" + "$" + "v=19" + "$" + parameters + "$" + salt + "$" + hash
  }

  /**
    A text is accepted exactly if it names this algorithm and version, and these costs,
    and encodes a salt of 16 and a hash of 32 bytes; they are what is returned.
  */
  lemma AcceptedExactlyWhen(encoded: string, salt: Bytes, hash: Bytes)
    ensures Parse(encoded) == Ok((salt, hash))
            <==> |salt| == 16 && |hash| == 32 && exists first, parameters, s, h ::
                   && Holds(encoded, first, parameters, s, h) && ScanParameters(parameters) == Some((65536, 3, 2))
                   && Decode(s, Std) == Some(salt) && Decode(h, Std) == Some(hash)
  {
    hide Decode, ScanParameters, Split;
    JoinSplit(encoded, '$');
    var parts := Split(encoded, '$');
    if Parse(encoded) == Ok((salt, hash)) {
      assert parts == [parts[0], "argon2id", "v=19", parts[3], parts[4], parts[5]];
      JoinedSix(parts[0], "argon2id", "v=19", parts[3], parts[4], parts[5]);
      assert Holds(encoded, parts[0], parts[3], parts[4], parts[5]);
    }
    forall first, parameters, s, h | Holds(encoded, first, parameters, s, h)
      ensures parts == [first, "argon2id", "v=19", parameters, s, h]
    {
      HeldIsSplit(encoded, first, parameters, s, h);
    }
  }

  lemma HeldIsSplit(encoded: string, first: string, parameters: string, salt: string, hash: string)
    requires Holds(encoded, first, parameters, salt, hash)
    ensures Split(encoded, '$') == [first, "argon2id", "v=19", parameters, salt, hash]
  {
    JoinedSix(first, "argon2id", "v=19", parameters, salt, hash);
    SplitJoin([first, "argon2id", "v=19", parameters, salt, hash], '$');
  }

  // ----- Round trip -----

  lemma FieldOf(lit: string, n: nat, rest: string)
    requires n <= MAX_INT64 && (rest != "" ==> !IsDigit(rest[0]))
    ensures Field(lit + (Decimal(n) + rest), lit) == Some((n, rest))
  {
    hide Decimal, ScanInt;
    assert (lit + (Decimal(n) + rest))[|lit|..] == Decimal(n) + rest;
    ScanDecimal(n, rest);
  }

  lemma ParametersRoundTrip(memory: nat, time: nat, threads: nat)
    requires memory <= MAX_INT64 && time <= MAX_INT64 && threads <= MAX_INT64
    ensures ScanParameters(Parameters(memory, time, threads)) == Some((memory, time, threads))
  {
    hide Decimal, Field;
    assert Decimal(threads) + "" == Decimal(threads);
    FieldOf(",p=", threads, "");
    FieldOf(",t=", time, ",p=" + Decimal(threads));
    FieldOf("m=", memory, ",t=" + (Decimal(time) + (",p=" + Decimal(threads))));
  }

  lemma NoDollarInParameters(memory: nat, time: nat, threads: nat)
    ensures '$' !in Parameters(memory, time, threads)
  {
  }

  lemma PiecesOfPrinted(parameters: string, salt: Bytes, hash: Bytes)
    requires '$' !in parameters
    ensures Split(Join(Pieces(parameters, salt, hash), '$'), '$') == Pieces(parameters, salt, hash)
  {
    assert '$' !in Encode(salt, Std) && '$' !in Encode(hash, Std);
    SplitJoin(Pieces(parameters, salt, hash), '$');
  }

  lemma ParsePieces(parameters: string, salt: Bytes, hash: Bytes)
    ensures ParseParts(Pieces(parameters, salt, hash))
            == CheckFields(ScanParameters(parameters), Some(salt), Some(hash))
  {
    hide Decode, Encode, ScanParameters, CheckFields;
    DecodeEncode(salt, Std);
    DecodeEncode(hash, Std);
  }

  /** Parsing a printed hash gives back exactly its salt and hash. */
  lemma ParsePrinted(salt: Bytes, hash: Bytes)
    requires |salt| == SALT_LEN && |hash| == KEY_LEN
    ensures Parse(Print(salt, hash)) == Ok((salt, hash))
  {
    var parameters := Parameters(MEMORY_KIB, TIME, THREADS);
    ParametersRoundTrip(MEMORY_KIB, TIME, THREADS);
    NoDollarInParameters(MEMORY_KIB, TIME, THREADS);
    PiecesOfPrinted(parameters, salt, hash);
    ParsePieces(parameters, salt, hash);
  }

  /**
    Against the hash of a password of 8 to 200 bytes, exactly those passwords verify
    that are not too long and derive the same key; the password itself is one of them.
  */
  lemma HashVerifiesItsPassword(argon2: Argon2, password: Bytes, salt: Bytes, candidate: Bytes)
    requires DerivesFullKeys(argon2) && |salt| == SALT_LEN && MIN_LEN <= |password| <= MAX_LEN
    ensures HashPassword(argon2, password, salt).Ok?
    ensures var stored := HashPassword(argon2, password, salt).value;
            && VerifyPassword(argon2, password, stored) == Ok(true)
            && VerifyPassword(argon2, candidate, stored)
               == Ok(|candidate| <= MAX_LEN && argon2(candidate, salt, KEY_LEN) == argon2(password, salt, KEY_LEN))
  {
    ParsePrinted(salt, argon2(password, salt, KEY_LEN));
  }
}

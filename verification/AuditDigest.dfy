/**
 * Which events their payload identifies among all events (hash-chain.ts), and what the hash chain relies on.
 */
module AuditDigest {
  import opened Basics
  import opened AuditHash
  import opened CanonicalJson
  import opened StableJson
  import Text

  // ----- One-sided identification -----

  function Front(i: HashInput): string
  {
    Text.Join('|', PayloadFields(i)[..4])
  }

  function Middle(i: HashInput): string
  {
    Text.Join('|', PayloadFields(i)[4..7])
  }

  function Back(i: HashInput): string
  {
    Text.Join('|', PayloadFields(i)[7..])
  }

  lemma PayloadParts(i: HashInput)
    ensures Payload(i) == (Front(i) + (['|'] + Middle(i))) + (['|'] + Back(i))
  {
    var f := PayloadFields(i);
    Text.JoinSplit(f[..4], f[4..7]);
    Text.JoinSplit(f[..7], f[7..]);
    assert f[..7] == f[..4] + f[4..7];
    assert f == f[..7] + f[7..];
  }

  lemma FrontBars(i: HashInput)
    ensures Text.Bars(Front(i)) >= 3
    ensures Text.Bars(Front(i)) == 3 <==> Separable(i)
  {
    hide StableStringify, Text.Decimal, Text.Bars;
    var f := PayloadFields(i);
    FieldTable(i);
    assert f[..4] == [f[0], f[1], f[2], f[3]];
    Text.BarsOfFour(f[0], f[1], f[2], f[3]);
    Text.FreeMeansNoBars(f[0]);
    Text.FreeMeansNoBars(f[1]);
    Text.FreeMeansNoBars(f[2]);
    Text.FreeMeansNoBars(f[3]);
  }

  lemma BackBars(i: HashInput)
    requires Plain(i)
    ensures Text.Bars(Back(i)) == 2
  {
    hide StableStringify, JsonFieldsWellFormed, Text.Bars;
    var f := PayloadFields(i);
    FieldTable(i);
    assert f[7..] == [f[7], f[8], f[9]];
    Text.BarsOfThree(f[7], f[8], f[9]);
    Text.FreeMeansNoBars(f[7]);
    Text.FreeMeansNoBars(f[8]);
    Text.FreeMeansNoBars(f[9]);
    assert Text.Free('|', f[8]);
  }

  lemma MiddleIsWhole(i: HashInput)
    requires JsonFieldsWellFormed(i)
    ensures Whole(Middle(i), 2)
  {
    hide Whole, StableStringify;
    var f := PayloadFields(i)[4..7];
    FieldTable(i);
    StableTextIsWhole(i.before);
    StableTextIsWhole(i.after);
    StableTextIsWhole(i.reason);
    OneBar();
    Text.JoinSplit([f[0]], [f[1]]);
    Text.JoinSplit([f[0], f[1]], [f[2]]);
    assert [f[0]] + [f[1]] == [f[0], f[1]] && [f[0], f[1]] + [f[2]] == f;
    WholeConcat(['|'], 1, f[1], 0);
    WholeConcat(f[0], 0, ['|'] + f[1], 1);
    WholeConcat(['|'], 1, f[2], 0);
    WholeConcat(f[0] + (['|'] + f[1]), 1, ['|'] + f[2], 1);
  }

  /**
   * A separable event is identified by its payload among all events, those with a `|` in a free-text field
   * included: JSON text cannot be cut so that the free text in front of it absorbs a part of it.
   */
  lemma PayloadIdentifies(x: HashInput, y: HashInput)
    requires Readable(x) && Plain(y)
    ensures Payload(x) == Payload(y) <==> SameHashedFields(x, y)
  {
    hide PayloadFields, Front, Middle, Back, Whole, JsonFieldsWellFormed, SameHashedFields, Text.Bars, Payload;
    if Payload(x) == Payload(y) {
      PayloadParts(x);
      PayloadParts(y);
      BackBars(x);
      BackBars(y);
      Text.CutFromRight(Front(x) + (['|'] + Middle(x)), Back(x), Front(y) + (['|'] + Middle(y)), Back(y));
      FrontBars(x);
      FrontBars(y);
      var z := Text.CutFromLeft(Front(x), Middle(x), Front(y), Middle(y));
      MiddleIsWhole(x);
      MiddleIsWhole(y);
      NoInnerRun(Middle(x), Middle(y), z, 2);
      assert Separable(y);
      PayloadDeterminesFields(x, y);
    }
    if SameHashedFields(x, y) {
      SameFieldsSamePayload(x, y);
    }
  }

  ghost predicate Rival(x: HashInput, y: HashInput)
  {
    Plain(y) && Payload(y) == Payload(x) && !SameHashedFields(x, y)
  }

  /** The exact condition, event by event: its payload identifies it if and only if it is separable. */
  lemma IdentifiedExactlyWhenSeparable(x: HashInput)
    requires Plain(x)
    ensures (forall y :: !Rival(x, y)) <==> Separable(x)
  {
    hide Payload, SameHashedFields, Plain;
    if Separable(x) {
      forall y ensures !Rival(x, y) {
        if Plain(y) { PayloadIdentifies(x, y); }
      }
    } else {
      var y := UnseparableCollides(x);
      assert Rival(x, y);
    }
  }

  // ----- Digests -----

  /** SHA-256 in hex, idealised: no collisions, and every digest is a non-empty text without `|`. */
  ghost predicate IdealHash(hash: string -> string)
  {
    && (forall s, t :: hash(s) == hash(t) ==> s == t)
    && (forall s :: hash(s) != "" && Text.Free('|', hash(s)))
  }

  /** `computeAuditHash` over a given hash function. */
  function Digest(hash: string -> string): HashInput -> string
  {
    (i: HashInput) => hash(Payload(i))
  }

  /**
   * What the chain relies on: digests are non-empty texts without `|`, a readable input shares its digest with
   * exactly those inputs that have the same hashed fields, and of any two inputs the digests differ when only the
   * previous hashes do.
   */
  ghost predicate IdealDigest(digest: HashInput -> string)
  {
    && (forall i :: digest(i) != "" && Text.Free('|', digest(i)))
    && (forall a, b {:trigger Readable(a), Plain(b)} ::
          Readable(a) && Plain(b) ==> (digest(a) == digest(b) <==> SameHashedFields(a, b)))
    && (forall a, b {:trigger SameButPrevious(a, b)} ::
          SameButPrevious(a, b) && digest(a) == digest(b) ==> OrEmpty(a.prevHash) == OrEmpty(b.prevHash))
  }

  /** Hashing the payload with an ideal hash gives the chain what it relies on. */
  lemma IdealHashGivesIdealDigest(hash: string -> string)
    requires IdealHash(hash)
    ensures IdealDigest(Digest(hash))
  {
    hide Payload, SameHashedFields, Readable, Plain, SameButPrevious;
    var digest := Digest(hash);
    forall i ensures digest(i) != "" && Text.Free('|', digest(i)) {
      assert digest(i) == hash(Payload(i));
    }
    forall a, b | Readable(a) && Plain(b)
      ensures digest(a) == digest(b) <==> SameHashedFields(a, b)
    {
      PayloadIdentifies(a, b);
    }
    forall a, b | SameButPrevious(a, b) && digest(a) == digest(b)
      ensures OrEmpty(a.prevHash) == OrEmpty(b.prevHash)
    {
      PayloadBindsPreviousHash(a, b);
    }
  }

  // ----- There are such functions -----

  /** A text without `|` that can be read back: `|` and the backslash are escaped, and a dot ends the text. */
  function Encoded(s: string): string
  {
    if s == "" then "."
    else (if s[0] == '|' then "\\p" else if s[0] == '\\' then "\\\\" else [s[0]]) + Encoded(s[1..])
  }

  lemma {:induction false} EncodedIsInjective(s: string, t: string)
    requires Encoded(s) == Encoded(t)
    ensures s == t
  {
    EncodedLength(s);
    EncodedLength(t);
    if s != "" && t != "" {
      var a, b := Encoded(s), Encoded(t);
      assert a[0] == b[0] && a[1] == b[1];
      assert s[0] == t[0];
      var k := if s[0] == '|' || s[0] == '\\' then 2 else 1;
      assert Encoded(s[1..]) == a[k..] == b[k..] == Encoded(t[1..]);
      EncodedIsInjective(s[1..], t[1..]);
      assert s == [s[0]] + s[1..] && t == [t[0]] + t[1..];
    }
  }

  lemma {:induction false} EncodedLength(s: string)
    ensures |Encoded(s)| >= |s| + 1 && Text.Free('|', Encoded(s))
    ensures |Encoded(s)| == 1 <==> s == ""
  {
    if s != "" { EncodedLength(s[1..]); }
  }

  /** So what is asked of the hash is not contradictory. */
  lemma IdealHashExists() returns (hash: string -> string)
    ensures IdealHash(hash)
  {
    hash := s => Encoded(s);
    forall s, t | hash(s) == hash(t) ensures s == t { EncodedIsInjective(s, t); }
    forall s ensures hash(s) != "" && Text.Free('|', hash(s)) { EncodedLength(s); }
  }
}

/** The `|`-joined payload hashed for one audit event, and when it identifies the event (hash-chain.ts). */
module AuditHash {
  import opened Basics
  import opened CanonicalJson
  import opened StableJson
  import Text

  /** `target` is the field the source calls `object`. */
  datatype HashInput = HashInput(
    actor: string,
    action: string,
    target: string,
    requestId: Option<string>,
    before: Json,
    after: Json,
    reason: Json,
    prevHash: Option<string>,
    sequence: nat,
    createdAt: string)

  /** `value ?? ""`. */
  function OrEmpty(o: Option<string>): string
  {
    if o.Some? then o.value else ""
  }

  function PayloadFields(i: HashInput): (r: seq<string>)
    ensures |r| == 10
  {
    [ i.actor,
      i.action,
      i.target,
      OrEmpty(i.requestId),
      StableStringify(i.before),
      StableStringify(i.after),
      StableStringify(i.reason),
      OrEmpty(i.prevHash),
      Text.Decimal(i.sequence),
      i.createdAt ]
  }

  function Payload(i: HashInput): string
  {
    Text.Join('|', PayloadFields(i))
  }

  ghost predicate JsonFieldsWellFormed(i: HashInput)
  {
    WellFormed(i.before) && WellFormed(i.after) && WellFormed(i.reason)
  }

  /** The four free-text fields hold no `|`. */
  ghost predicate Separable(i: HashInput)
  {
    Text.Free('|', i.actor) && Text.Free('|', i.action) && Text.Free('|', i.target)
    && Text.Free('|', OrEmpty(i.requestId))
  }

  /** Everything the hash is meant to bind, JSON up to key order, an absent id or hash read as empty. */
  ghost predicate SameHashedFields(a: HashInput, b: HashInput)
  {
    && a.actor == b.actor
    && a.action == b.action
    && a.target == b.target
    && OrEmpty(a.requestId) == OrEmpty(b.requestId)
    && Meaning(a.before) == Meaning(b.before)
    && Meaning(a.after) == Meaning(b.after)
    && Meaning(a.reason) == Meaning(b.reason)
    && OrEmpty(a.prevHash) == OrEmpty(b.prevHash)
    && a.sequence == b.sequence
    && a.createdAt == b.createdAt
  }

  /** The JSON fields are JSON values, and neither the previous hash nor the creation time holds a `|`. */
  ghost predicate Plain(i: HashInput)
  {
    JsonFieldsWellFormed(i) && Text.Free('|', OrEmpty(i.prevHash)) && Text.Free('|', i.createdAt)
  }

  ghost predicate Readable(i: HashInput)
  {
    Separable(i) && Plain(i)
  }

  ghost predicate SameButPrevious(a: HashInput, b: HashInput)
  {
    b == a.(prevHash := b.prevHash)
  }

  /** The text from field `k` of the payload onwards. */
  function From(i: HashInput, k: nat): string
    requires k < 10
  {
    Text.Join('|', PayloadFields(i)[k..])
  }

  lemma FromUnfold(i: HashInput, k: nat)
    requires k < 10
    ensures k < 9 ==> From(i, k) == PayloadFields(i)[k] + (['|'] + From(i, k + 1))
    ensures k == 9 ==> From(i, k) == i.createdAt
    ensures From(i, 0) == Payload(i)
  {
    var f := PayloadFields(i);
    assert f[0..] == f;
    if k < 9 {
      assert f[k..] == [f[k]] + f[k + 1..];
      Text.JoinUnfold('|', f[k], f[k + 1..]);
    }
  }

  /** The ten fields in order, a `|` between any two. */
  lemma PayloadText(i: HashInput)
    ensures var requestId := if i.requestId.Some? then i.requestId.value else "";
            var previous := if i.prevHash.Some? then i.prevHash.value else "";
            var before, after, reason := StableStringify(i.before), StableStringify(i.after), StableStringify(i.reason);
            Payload(i) == i.actor + ("|" + (i.action + ("|" + (i.target + ("|" + (requestId + ("|" + (before
              + ("|" + (after + ("|" + (reason + ("|" + (previous + ("|" + (Text.Decimal(i.sequence)
              + ("|" + i.createdAt)))))))))))))))))
  {
    hide PayloadFields, From, Payload, StableStringify, Text.Decimal;
    FieldTable(i);
    FromUnfold(i, 0);
    FromUnfold(i, 1);
    FromUnfold(i, 2);
    FromUnfold(i, 3);
    FromUnfold(i, 4);
    FromUnfold(i, 5);
    FromUnfold(i, 6);
    FromUnfold(i, 7);
    FromUnfold(i, 8);
    FromUnfold(i, 9);
  }

  lemma TextFieldRead(a: HashInput, b: HashInput, k: nat)
    requires k < 9 && From(a, k) == From(b, k)
    requires Text.Free('|', PayloadFields(a)[k]) && Text.Free('|', PayloadFields(b)[k])
    ensures PayloadFields(a)[k] == PayloadFields(b)[k] && From(a, k + 1) == From(b, k + 1)
  {
    FromUnfold(a, k);
    FromUnfold(b, k);
    var p, q, x, y := PayloadFields(a)[k], PayloadFields(b)[k], From(a, k + 1), From(b, k + 1);
    Associate(p, ['|'], x);
    Associate(q, ['|'], y);
    Text.SplitAtFirst('|', p, q, x, y);
  }

  lemma JsonFieldRead(a: HashInput, b: HashInput, k: nat, v: Json, w: Json)
    requires k < 9 && From(a, k) == From(b, k)
    requires WellFormed(v) && PayloadFields(a)[k] == StableStringify(v)
    requires WellFormed(w) && PayloadFields(b)[k] == StableStringify(w)
    ensures Meaning(v) == Meaning(w) && From(a, k + 1) == From(b, k + 1)
  {
    FromUnfold(a, k);
    FromUnfold(b, k);
    StableTextSelfDelimits(v, w, From(a, k + 1), From(b, k + 1));
  }

  lemma FieldTable(i: HashInput)
    ensures var f := PayloadFields(i);
            && f[0] == i.actor && f[1] == i.action && f[2] == i.target && f[3] == OrEmpty(i.requestId)
            && f[4] == StableStringify(i.before) && f[5] == StableStringify(i.after)
            && f[6] == StableStringify(i.reason)
            && f[7] == OrEmpty(i.prevHash) && f[8] == Text.Decimal(i.sequence) && f[9] == i.createdAt
  {
    hide StableStringify, Text.Decimal;
  }

  lemma FreeTextRead(a: HashInput, b: HashInput)
    requires Separable(a) && Separable(b) && Payload(a) == Payload(b)
    ensures a.actor == b.actor && a.action == b.action && a.target == b.target
    ensures OrEmpty(a.requestId) == OrEmpty(b.requestId)
    ensures From(a, 4) == From(b, 4)
  {
    hide PayloadFields, From;
    FieldTable(a);
    FieldTable(b);
    FromUnfold(a, 0);
    FromUnfold(b, 0);
    TextFieldRead(a, b, 0);
    TextFieldRead(a, b, 1);
    TextFieldRead(a, b, 2);
    TextFieldRead(a, b, 3);
  }

  lemma JsonRead(a: HashInput, b: HashInput)
    requires JsonFieldsWellFormed(a) && JsonFieldsWellFormed(b)
    requires From(a, 4) == From(b, 4)
    ensures Meaning(a.before) == Meaning(b.before)
    ensures Meaning(a.after) == Meaning(b.after)
    ensures Meaning(a.reason) == Meaning(b.reason)
    ensures From(a, 7) == From(b, 7)
  {
    hide PayloadFields, From;
    FieldTable(a);
    FieldTable(b);
    JsonFieldRead(a, b, 4, a.before, b.before);
    JsonFieldRead(a, b, 5, a.after, b.after);
    JsonFieldRead(a, b, 6, a.reason, b.reason);
  }

  lemma ChainFieldsRead(a: HashInput, b: HashInput)
    requires Text.Free('|', OrEmpty(a.prevHash)) && Text.Free('|', OrEmpty(b.prevHash))
    requires From(a, 7) == From(b, 7)
    ensures OrEmpty(a.prevHash) == OrEmpty(b.prevHash)
    ensures a.sequence == b.sequence && a.createdAt == b.createdAt
  {
    hide PayloadFields, From;
    FieldTable(a);
    FieldTable(b);
    TextFieldRead(a, b, 7);
    TextFieldRead(a, b, 8);
    Text.DecimalInjective(a.sequence, b.sequence);
    FromUnfold(a, 9);
    FromUnfold(b, 9);
  }

  lemma SameFieldsSamePayload(a: HashInput, b: HashInput)
    requires JsonFieldsWellFormed(a) && JsonFieldsWellFormed(b)
    requires SameHashedFields(a, b)
    ensures Payload(a) == Payload(b)
  {
    StableTextIsMeaning(a.before, b.before);
    StableTextIsMeaning(a.after, b.after);
    StableTextIsMeaning(a.reason, b.reason);
    assert PayloadFields(a) == PayloadFields(b);
  }

  /** With separable fields the payload determines every hashed field, and only those. */
  lemma PayloadDeterminesFields(a: HashInput, b: HashInput)
    requires JsonFieldsWellFormed(a) && JsonFieldsWellFormed(b)
    requires Separable(a) && Separable(b)
    requires Text.Free('|', OrEmpty(a.prevHash)) && Text.Free('|', OrEmpty(b.prevHash))
    ensures Payload(a) == Payload(b) <==> SameHashedFields(a, b)
  {
    if Payload(a) == Payload(b) {
      FreeTextRead(a, b);
      JsonRead(a, b);
      ChainFieldsRead(a, b);
    }
    if SameHashedFields(a, b) {
      SameFieldsSamePayload(a, b);
    }
  }

  // ----- A `|` inside a free-text field always admits a second reading -----

  lemma ShiftBarRight(p: string, q: string, a: string, rest: seq<string>)
    requires rest != []
    ensures Text.Join('|', [p + (['|'] + q), a] + rest) == Text.Join('|', [p, q + (['|'] + a)] + rest)
  {
    var t := ['|'] + Text.Join('|', rest);
    Associate(p, ['|'] + q, ['|'] + (a + t));
    Associate(['|'], q, ['|'] + (a + t));
    Associate(q, ['|'] + a, t);
    Associate(['|'], a, t);
  }

  lemma {:induction false} JoinAfter(head: seq<string>, s: seq<string>, t: seq<string>)
    requires s != [] && t != [] && Text.Join('|', s) == Text.Join('|', t)
    ensures Text.Join('|', head + s) == Text.Join('|', head + t)
  {
    if head == [] {
      assert head + s == s && head + t == t;
    } else {
      JoinAfter(head[1..], s, t);
      assert head + s == [head[0]] + (head[1..] + s);
      assert head + t == [head[0]] + (head[1..] + t);
      Text.JoinUnfold('|', head[0], head[1..] + s);
      Text.JoinUnfold('|', head[0], head[1..] + t);
    }
  }

  /** Field `k` and its right neighbour may trade the text around a `|` without changing the payload. */
  lemma TradeAcrossBar(f: seq<string>, g: seq<string>, k: nat, p: string, q: string, a: string)
    requires k + 2 < |f| == |g|
    requires f[..k] == g[..k] && f[k + 2..] == g[k + 2..]
    requires f[k] == p + (['|'] + q) && f[k + 1] == a
    requires g[k] == p && g[k + 1] == q + (['|'] + a)
    ensures Text.Join('|', f) == Text.Join('|', g)
  {
    ShiftBarRight(p, q, a, f[k + 2..]);
    assert f[k..] == [f[k], a] + f[k + 2..];
    assert g[k..] == [p, g[k + 1]] + f[k + 2..];
    JoinAfter(f[..k], f[k..], g[k..]);
    assert f == f[..k] + f[k..] && g == f[..k] + g[k..];
  }

  /** The separator assumption is needed: without it another event has the same payload. */
  lemma UnseparableCollides(x: HashInput) returns (y: HashInput)
    requires !Separable(x)
    ensures Payload(y) == Payload(x) && !SameHashedFields(x, y)
    ensures Plain(x) ==> Plain(y)
  {
    hide StableStringify, Meaning, Text.Decimal, Text.Join;
    ghost var p, q;
    if !Text.Free('|', x.actor) {
      p, q := Text.CutAtBar(x.actor);
      y := x.(actor := p, action := q + (['|'] + x.action));
      TradeAcrossBar(PayloadFields(x), PayloadFields(y), 0, p, q, x.action);
    } else if !Text.Free('|', x.action) {
      p, q := Text.CutAtBar(x.action);
      y := x.(actor := x.actor + (['|'] + p), action := q);
      TradeAcrossBar(PayloadFields(y), PayloadFields(x), 0, x.actor, p, q);
    } else if !Text.Free('|', x.target) {
      p, q := Text.CutAtBar(x.target);
      y := x.(action := x.action + (['|'] + p), target := q);
      TradeAcrossBar(PayloadFields(y), PayloadFields(x), 1, x.action, p, q);
    } else {
      p, q := Text.CutAtBar(OrEmpty(x.requestId));
      y := x.(target := x.target + (['|'] + p), requestId := Some(q));
      TradeAcrossBar(PayloadFields(y), PayloadFields(x), 2, x.target, p, q);
    }
  }

  /** Changing only the previous hash always changes the payload, whatever the other fields hold. */
  lemma {:induction false} PayloadBindsPreviousHash(a: HashInput, b: HashInput)
    requires SameButPrevious(a, b)
    requires Payload(a) == Payload(b)
    ensures OrEmpty(a.prevHash) == OrEmpty(b.prevHash)
  {
    SameFrontSameRest(a, b, 7);
    FromUnfold(a, 7);
    FromUnfold(b, 7);
    assert PayloadFields(a)[8..] == PayloadFields(b)[8..];
    var p, q, t := OrEmpty(a.prevHash), OrEmpty(b.prevHash), ['|'] + From(a, 8);
    assert p + t == q + t;
    assert |p| == |q|;
    assert p == (p + t)[..|p|] == (q + t)[..|q|] == q;
  }

  lemma {:induction false} SameFrontSameRest(a: HashInput, b: HashInput, k: nat)
    requires k <= 7 && SameButPrevious(a, b)
    requires Payload(a) == Payload(b)
    ensures From(a, k) == From(b, k)
  {
    if k == 0 {
      FromUnfold(a, 0);
      FromUnfold(b, 0);
    } else {
      SameFrontSameRest(a, b, k - 1);
      FromUnfold(a, k - 1);
      FromUnfold(b, k - 1);
      CancelEqual(PayloadFields(a)[k - 1], ['|'] + From(a, k), ['|'] + From(b, k));
      Cancel('|', '|', From(a, k), From(b, k));
    }
  }
}

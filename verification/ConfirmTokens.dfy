/** The confirmation-token store: a code is good for one use, for one command,
    for sixty seconds. */
module ConfirmTokens {
  import opened Models
  import opened Text

  const TOKEN_TTL_SECONDS: real := 60.0

  type Args = map<string, Json>

  // ---- the stamp of a command ----

  /** What is hashed for a command: the tool and its sorted keys with the texts
      of their values. */
  datatype Payload = Payload(tool: string, items: seq<(string, string)>)

  /** The hash of a command, the number drawn from the hash of a tool, a stamp
      and a nonce, and the text of a list or a dictionary. */
  datatype Hashes = Hashes(
    command: Payload -> string, draw: (string, string, string) -> nat, nested: Json -> string)

  /** `str(v)`. */
  function TextOf(h: Hashes, v: Json): string {
    match v
    case JNull => "None"
    case JBool(b) => if b then "True" else "False"
    case JInt(n) => SignedDecimal(n)
    case JString(s) => s
    case _ => h.nested(v)
  }

  predicate IsLeast(key: string, keys: set<string>) {
    key in keys && forall k :: k in keys ==> k == key || Less(key, k)
  }

  lemma {:induction false} LeastExists(keys: set<string>)
    requires keys != {}
    ensures exists key :: IsLeast(key, keys)
    decreases |keys|
  {
    var some :| some in keys;
    if keys == {some} {
      assert IsLeast(some, keys);
    } else {
      var rest := keys - {some};
      assert keys == rest + {some};
      LeastExists(rest);
      var least :| IsLeast(least, rest);
      LessTotal(least, some);
      var key := if Less(least, some) then least else some;
      forall k | k in keys
        ensures k == key || Less(key, k)
      {
        if k in rest && k != least && key == some {
          LessTransitive(some, least, k);
        }
      }
      assert IsLeast(key, keys);
    }
  }

  lemma LeastIsUnique(a: string, b: string, keys: set<string>)
    requires IsLeast(a, keys) && IsLeast(b, keys)
    ensures a == b
  {
    if a != b {
      LessTransitive(a, b, a);
      LessIrreflexive(a);
    }
  }

  /** The keys of a dictionary in the order of `sorted`. */
  function SortedKeys(keys: set<string>): (r: seq<string>)
    ensures forall k :: k in r <==> k in keys
    ensures forall i, j :: 0 <= i < j < |r| ==> Less(r[i], r[j])
    decreases |keys|
  {
    if keys == {} then []
    else
      LeastExists(keys);
      assert forall a, b :: IsLeast(a, keys) && IsLeast(b, keys) ==> a == b by {
        forall a, b | IsLeast(a, keys) && IsLeast(b, keys)
          ensures a == b
        {
          LeastIsUnique(a, b, keys);
        }
      }
      var key :| IsLeast(key, keys);
      var rest := SortedKeys(keys - {key});
      assert forall j :: 0 <= j < |rest| ==> rest[j] in keys - {key};
      [key] + rest
  }

  function Items(h: Hashes, args: Args): (r: seq<(string, string)>) {
    var keys := SortedKeys(args.Keys);
    seq(|keys|, i requires 0 <= i < |keys| => assert keys[i] in keys; (keys[i], TextOf(h, args[keys[i]])))
  }

  /** `_fingerprint`. */
  function Stamp(h: Hashes, tool: string, args: Args): string {
    h.command(Payload(tool, Items(h, args)))
  }

  /** The same keys with values of the same text, be they of other types. */
  ghost predicate SameTexts(h: Hashes, args: Args, args': Args) {
    args.Keys == args'.Keys && forall k :: k in args ==> TextOf(h, args[k]) == TextOf(h, args'[k])
  }

  lemma ItemsExactly(h: Hashes, args: Args, args': Args)
    ensures Items(h, args) == Items(h, args') <==> SameTexts(h, args, args')
  {
    hide TextOf, SortedKeys;
    if Items(h, args) == Items(h, args') {
      ItemsTell(h, args, args');
      ItemsTell(h, args', args);
    } else if SameTexts(h, args, args') {
      assert forall i :: 0 <= i < |Items(h, args)| ==> Items(h, args)[i] == Items(h, args')[i] by {
        assert args.Keys == args'.Keys;
        assert forall i :: 0 <= i < |SortedKeys(args.Keys)| ==> SortedKeys(args.Keys)[i] in args;
      }
    }
  }

  lemma ItemsTell(h: Hashes, args: Args, args': Args)
    requires Items(h, args) == Items(h, args')
    ensures forall k :: k in args ==> k in args' && TextOf(h, args[k]) == TextOf(h, args'[k])
  {
    hide TextOf, SortedKeys;
    var keys, keys' := SortedKeys(args.Keys), SortedKeys(args'.Keys);
    forall k | k in args
      ensures k in args' && TextOf(h, args[k]) == TextOf(h, args'[k])
    {
      assert k in keys;
      var i :| 0 <= i < |keys| && keys[i] == k;
      assert Items(h, args)[i] == (k, TextOf(h, args[k]));
      assert Items(h, args')[i].0 == keys'[i];
      assert keys'[i] in keys';
    }
  }

  /** Two different commands are hashed to one stamp. */
  ghost predicate StampsCollide(h: Hashes, tool: string, args: Args, tool': string, args': Args) {
    var a, b := Payload(tool, Items(h, args)), Payload(tool', Items(h, args'));
    a != b && h.command(a) == h.command(b)
  }

  /** A stamp is shared by the commands of one tool with the same texts, and by
      no others without a collision. */
  lemma StampExactly(h: Hashes, tool: string, args: Args, tool': string, args': Args)
    ensures Stamp(h, tool, args) == Stamp(h, tool', args') <==>
            (tool == tool' && SameTexts(h, args, args')) || StampsCollide(h, tool, args, tool', args')
  {
    hide Items;
    ItemsExactly(h, args, args');
  }

  /** The code of an issue: six digits drawn from a hash over a fresh nonce. */
  function CodeFor(h: Hashes, tool: string, args: Args, nonce: string): string {
    ZeroPadded(6, h.draw(tool, Stamp(h, tool, args), nonce) % 100_0000)
  }

  /** A code has six digits, and they are the last six of the number drawn. */
  lemma CodeIsSixDigits(h: Hashes, tool: string, args: Args, nonce: string)
    ensures var code := CodeFor(h, tool, args, nonce);
            && |code| == 6 && AllDigits(code)
            && ParseDecimal(code) == h.draw(tool, h.command(Payload(tool, Items(h, args))), nonce) % 100_0000
  {
    hide Decimal, Items;
    var n := h.draw(tool, Stamp(h, tool, args), nonce) % 100_0000;
    assert Pow10(6) == 100_0000;
    DecimalLength(n, 6);
    ZeroPaddedRoundTrip(6, n);
  }

  // ---- the store ----

  datatype Token = Token(tool: string, fingerprint: string, expiresAt: real)

  type Tokens = map<string, Token>

  function Purged(tokens: Tokens, now: real): Tokens {
    map code | code in tokens && !(tokens[code].expiresAt < now) :: tokens[code]
  }

  function Issued(h: Hashes, tokens: Tokens, tool: string, args: Args, nonce: string,
                  purgeNow: real, issueNow: real): Tokens
  {
    Purged(tokens, purgeNow)[
      CodeFor(h, tool, args, nonce) := Token(tool, Stamp(h, tool, args), issueNow + TOKEN_TTL_SECONDS)]
  }

  function Verified(tokens: Tokens, code: string, now: real): Tokens {
    Purged(tokens, now) - {code}
  }

  predicate Accepts(h: Hashes, tokens: Tokens, tool: string, args: Args, code: string, now: real) {
    var left := Purged(tokens, now);
    code in left && left[code].tool == tool && left[code].fingerprint == Stamp(h, tool, args)
  }

  class TokenStore {
    const hashes: Hashes
    var tokens: Tokens

    constructor (hashes: Hashes)
      ensures this.hashes == hashes && tokens == map[]
    {
      this.hashes := hashes;
      this.tokens := map[];
    }

    method PurgeExpired(now: real)
      modifies this
      ensures tokens == Purged(old(tokens), now)
    {
      var codes := tokens.Keys;
      while codes != {}
        invariant codes <= tokens.Keys <= old(tokens).Keys
        invariant forall code :: code in tokens ==> tokens[code] == old(tokens)[code]
        invariant forall code :: code in old(tokens) && code !in codes ==>
                    (code in tokens <==> !(old(tokens)[code].expiresAt < now))
        decreases codes
      {
        var code :| code in codes;
        codes := codes - {code};
        if tokens[code].expiresAt < now {
          tokens := tokens - {code};
        }
      }
    }

    method IssueToken(tool: string, args: Args, nonce: string, purgeNow: real, issueNow: real) returns (code: string)
      modifies this
      ensures code == CodeFor(hashes, tool, args, nonce)
      ensures tokens == Issued(hashes, old(tokens), tool, args, nonce, purgeNow, issueNow)
    {
      PurgeExpired(purgeNow);
      var fp := Stamp(hashes, tool, args);
      code := ZeroPadded(6, hashes.draw(tool, fp, nonce) % 100_0000);
      tokens := tokens[code := Token(tool, fp, issueNow + TOKEN_TTL_SECONDS)];
    }

    method VerifyToken(tool: string, args: Args, code: string, now: real) returns (accepted: bool)
      modifies this
      ensures tokens == Verified(old(tokens), code, now)
      ensures accepted == Accepts(hashes, old(tokens), tool, args, code, now)
    {
      PurgeExpired(now);
      if code !in tokens {
        return false;
      }
      var entry := tokens[code];
      tokens := tokens - {code};
      if entry.tool != tool {
        return false;
      }
      if entry.fingerprint != Stamp(hashes, tool, args) {
        return false;
      }
      return true;
    }
  }

  // ---- runs ----

  datatype Op =
    | Issue(tool: string, args: Args, nonce: string, purgeNow: real, issueNow: real)
    | Verify(tool: string, args: Args, code: string, now: real)
  {
    /** The time of the purge that opens the operation. */
    function Start(): real {
      if Issue? then purgeNow else now
    }

    /** The code that the operation gives out or uses up. */
    function Code(h: Hashes): string {
      if Issue? then CodeFor(h, tool, args, nonce) else code
    }

    function End(): real {
      if Issue? then issueNow else now
    }
  }

  function Apply(h: Hashes, tokens: Tokens, op: Op): Tokens {
    match op
    case Issue(tool, args, nonce, purgeNow, issueNow) =>
      Issued(h, tokens, tool, args, nonce, purgeNow, issueNow)
    case Verify(_, _, code, now) => Verified(tokens, code, now)
  }

  function After(h: Hashes, ops: seq<Op>): Tokens {
    if ops == [] then map[] else Apply(h, After(h, ops[..|ops| - 1]), ops[|ops| - 1])
  }

  /** The clock never goes back. */
  ghost predicate ClockRuns(ops: seq<Op>) {
    && (forall i :: 0 <= i < |ops| ==> ops[i].Start() <= ops[i].End())
    && forall i, j :: 0 <= i < j < |ops| ==> ops[i].End() <= ops[j].Start()
  }

  /** The answer to operation `i`, a verification, of a run from an empty store. */
  predicate AcceptedAt(h: Hashes, ops: seq<Op>, i: nat)
    requires i < |ops| && ops[i].Verify?
  {
    Accepts(h, After(h, ops[..i]), ops[i].tool, ops[i].args, ops[i].code, ops[i].now)
  }

  /** The latest operation on a code, an issue or a verification. */
  function LastUse(h: Hashes, ops: seq<Op>, code: string): (r: Option<nat>)
    ensures r.Some? ==> r.value < |ops| && ops[r.value].Code(h) == code
  {
    if ops == [] then None
    else if ops[|ops| - 1].Code(h) == code then Some(|ops| - 1)
    else LastUse(h, ops[..|ops| - 1], code)
  }

  /** The operation is an issue, still good at `now`. */
  predicate IssueGoodAt(op: Op, now: real) {
    op.Issue? && now <= op.issueNow + 60.0
  }

  /** What the store holds, after any run and a purge at a later time: the
      codes whose latest use was an issue that is not yet past expiry. */
  lemma {:induction false} StoreHolds(h: Hashes, ops: seq<Op>, code: string, now: real)
    requires ClockRuns(ops) && forall i :: 0 <= i < |ops| ==> ops[i].End() <= now
    ensures var left := Purged(After(h, ops), now);
            var last := LastUse(h, ops, code);
            && (code in left <==> last.Some? && IssueGoodAt(ops[last.value], now))
            && (code in left ==>
                  var op := ops[last.value];
                  left[code] == Token(op.tool, Stamp(h, op.tool, op.args), op.issueNow + TOKEN_TTL_SECONDS))
  {
    if ops == [] || ops[|ops| - 1].Code(h) == code {
    } else {
      var n := |ops| - 1;
      var before := After(h, ops[..n]);
      StoreHolds(h, ops[..n], code, now);
      assert ops[n].Start() <= ops[n].End() <= now;
      assert code in After(h, ops) <==> code in Purged(before, ops[n].Start());
    }
  }

  /** No operation leaves a token behind that was past expiry when it began. */
  lemma NothingExpiredIsKept(h: Hashes, ops: seq<Op>, code: string)
    requires ops != [] && ClockRuns(ops) && code in After(h, ops)
    ensures After(h, ops)[code].expiresAt >= ops[|ops| - 1].Start()
  {
    hide CodeFor, Stamp;
    assert ops[|ops| - 1].Start() <= ops[|ops| - 1].End();
  }

  /** A verification is accepted exactly when the latest use of its code was an
      issue, for the same tool and fingerprint, that is not past expiry. */
  lemma VerifyExactly(h: Hashes, ops: seq<Op>, i: nat)
    requires ClockRuns(ops) && i < |ops| && ops[i].Verify?
    ensures var last := LastUse(h, ops[..i], ops[i].code);
            AcceptedAt(h, ops, i) <==>
            && last.Some?
            && IssueGoodAt(ops[last.value], ops[i].now)
            && ops[last.value].tool == ops[i].tool
            && Stamp(h, ops[last.value].tool, ops[last.value].args) == Stamp(h, ops[i].tool, ops[i].args)
  {
    forall k | 0 <= k < i
      ensures ops[k].End() <= ops[i].now
    {
      assert ops[i].Start() == ops[i].now;
    }
    StoreHolds(h, ops[..i], ops[i].code, ops[i].now);
  }

  /** What "for the same command" comes to: the same tool and arguments of the
      same text, or a collision. */
  lemma AcceptedForTexts(h: Hashes, ops: seq<Op>, i: nat)
    requires ClockRuns(ops) && i < |ops| && ops[i].Verify?
    ensures var last := LastUse(h, ops[..i], ops[i].code);
            AcceptedAt(h, ops, i) <==>
            && last.Some?
            && IssueGoodAt(ops[last.value], ops[i].now)
            && ops[last.value].tool == ops[i].tool
            && var issue := ops[last.value];
               || SameTexts(h, issue.args, ops[i].args)
               || StampsCollide(h, issue.tool, issue.args, ops[i].tool, ops[i].args)
  {
    hide Stamp, SameTexts, StampsCollide;
    VerifyExactly(h, ops, i);
    var last := LastUse(h, ops[..i], ops[i].code);
    if last.Some? {
      StampExactly(h, ops[last.value].tool, ops[last.value].args, ops[i].tool, ops[i].args);
    }
  }

  /** Any value and the text that it prints as stand for each other. */
  lemma TextStandsForValue(h: Hashes, v: Json)
    ensures SameTexts(h, map["n" := v], map["n" := JString(TextOf(h, v))])
    ensures v.JInt? && v.n >= 0 ==> AllDigits(TextOf(h, v)) && ParseDecimal(TextOf(h, v)) == v.n
    ensures v.JInt? && v.n < 0 ==> |TextOf(h, v)| > 1 && TextOf(h, v)[0] == '-' && TextOf(h, v)[1..] == Decimal(-v.n)
    ensures v == JBool(true) ==> TextOf(h, v) == "True"
    ensures v == JBool(false) ==> TextOf(h, v) == "False"
    ensures v == JNull ==> TextOf(h, v) == "None"
  {
    hide Decimal;
    if v.JInt? && v.n >= 0 {
      DecimalRoundTrip(v.n);
    }
  }

  /** So a code issued for the number 1 is accepted for the text "1". */
  lemma NumberAndTextShareACode(h: Hashes, nonce: string)
    ensures var number, text := map["n" := JInt(1)], map["n" := JString("1")];
            var ops := [Issue("write", number, nonce, 0.0, 0.0),
                        Verify("write", text, CodeFor(h, "write", number, nonce), 1.0)];
            number != text && AcceptedAt(h, ops, 1)
  {
    hide CodeFor;
    var number, text := map["n" := JInt(1)], map["n" := JString("1")];
    var issue := Issue("write", number, nonce, 0.0, 0.0);
    var ops := [issue, Verify("write", text, CodeFor(h, "write", number, nonce), 1.0)];
    assert number["n"] != text["n"];
    assert SameTexts(h, number, text);
    assert ops[..1] == [issue];
    assert LastUse(h, ops[..1], issue.Code(h)) == Some(0);
    AcceptedForTexts(h, ops, 1);
  }

  lemma {:induction false} LastUseIsLatest(h: Hashes, ops: seq<Op>, k: nat)
    requires k < |ops|
    ensures LastUse(h, ops, ops[k].Code(h)).Some? && LastUse(h, ops, ops[k].Code(h)).value >= k
  {
    if ops[|ops| - 1].Code(h) == ops[k].Code(h) {
    } else {
      LastUseIsLatest(h, ops[..|ops| - 1], k);
    }
  }

  /** Each issue is accepted at most once: between two accepted verifications of
      one code there is another issue of it. */
  lemma OneUsePerIssue(h: Hashes, ops: seq<Op>, i: nat, j: nat)
    requires ClockRuns(ops) && i < j < |ops| && ops[i].Verify? && ops[j].Verify? && ops[i].code == ops[j].code
    requires AcceptedAt(h, ops, i) && AcceptedAt(h, ops, j)
    ensures exists k :: i < k < j && ops[k].Issue? && ops[k].Code(h) == ops[i].code
  {
    VerifyExactly(h, ops, j);
    LastUseIsLatest(h, ops[..j], i);
    var k := LastUse(h, ops[..j], ops[j].code).value;
    assert ops[k].Issue? && ops[k].Code(h) == ops[i].code;
  }
}

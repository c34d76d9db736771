/** The chunking and merging of `deepl` in `deepl-api.ts`; the service itself is a parameter. */
module DeeplApi {
  import opened Wrappers

  const DEEPL_LIMIT := 50

  /** The answer to the request with number `n` for the texts of one chunk; `None` is an exception. */
  type Service = (nat, seq<string>) -> Option<seq<string>>

  function Map(f: string -> string, texts: seq<string>): (r: seq<string>)
    ensures |r| == |texts| && forall i | 0 <= i < |r| :: r[i] == f(texts[i])
  {
    seq(|texts|, i requires 0 <= i < |texts| => f(texts[i]))
  }

  function Concat(chunks: seq<seq<string>>): seq<string> {
    if chunks == [] then [] else Concat(chunks[..|chunks| - 1]) + chunks[|chunks| - 1]
  }

  /** A service that translates each text by itself whenever it answers. */
  ghost predicate Pointwise(service: Service, f: string -> string) {
    forall n, texts :: service(n, texts).Some? ==> service(n, texts).value == Map(f, texts)
  }

  function ReplaceChar(s: string, from: char, to: char): (r: string)
    ensures |r| == |s| && forall i | 0 <= i < |s| :: r[i] == if s[i] == from then to else s[i]
  {
    if s == "" then "" else [if s[0] == from then to else s[0]] + ReplaceChar(s[1..], from, to)
  }

  /** Full-width characters become their ASCII counterparts. */
  function CoerceTranslation(text: string): string {
    ReplaceChar(ReplaceChar(ReplaceChar(ReplaceChar(ReplaceChar(ReplaceChar(text,
      '\U{ff08}', '('), '\U{ff09}', ')'), '\U{ff0c}', ','), '\U{ff1a}', ':'), '\U{ff1b}', ';'), '\U{ff1f}', '?')
  }

  /** The full-width brackets, comma, colon, semicolon and question mark. */
  predicate IsCoerced(c: char) {
    c as int in {0xff08, 0xff09, 0xff0c, 0xff1a, 0xff1b, 0xff1f}
  }

  /**
   * The chain of replaces maps each character by itself: six full-width characters to their ASCII
   * counterparts, which are 0xfee0 before them in Unicode, and no other.
   */
  lemma CoercedCharacterByCharacter(text: string)
    ensures var r := CoerceTranslation(text);
            |r| == |text| && forall i | 0 <= i < |text| ::
                               r[i] as int == if IsCoerced(text[i]) then text[i] as int - 0xfee0 else text[i] as int
  {
  }

  /** At most 50 texts in each request, and 50 in all but the last. */
  ghost predicate AreFullChunks(chunks: seq<seq<string>>) {
    && (forall i | 0 <= i < |chunks| :: 0 < |chunks[i]| <= 50)
    && (forall i | 0 <= i < |chunks| - 1 :: |chunks[i]| == 50)
  }

  /** `textArray.splice(0, deeplLimit)` until nothing is left. */
  method Chunks(texts: seq<string>) returns (textChunks: seq<seq<string>>)
    ensures Concat(textChunks) == texts
    ensures AreFullChunks(textChunks)
  {
    textChunks := [];
    var textArray := texts;
    while |textArray| > 0
      invariant Concat(textChunks) + textArray == texts
      invariant forall i | 0 <= i < |textChunks| :: 0 < |textChunks[i]| <= DEEPL_LIMIT
      invariant |textArray| > 0 ==> forall i | 0 <= i < |textChunks| :: |textChunks[i]| == DEEPL_LIMIT
      invariant forall i | 0 <= i < |textChunks| - 1 :: |textChunks[i]| == DEEPL_LIMIT
      decreases |textArray|
    {
      var n := if |textArray| < DEEPL_LIMIT then |textArray| else DEEPL_LIMIT;
      ghost var before := textChunks;
      textChunks := textChunks + [textArray[..n]];
      textArray := textArray[n..];
      assert textChunks[..|textChunks| - 1] == before;
    }
  }

  /** The connection to the service. It keeps what is sent. */
  class Connection {
    const service: Service
    var requests: seq<seq<string>>

    constructor (service: Service)
      ensures this.service == service && requests == []
    {
      this.service, requests := service, [];
    }

    /** `postWithRetry` */
    method Post(texts: seq<string>) returns (answer: Option<seq<string>>)
      modifies this
      ensures requests == old(requests) + [texts] && answer == service(|old(requests)|, texts)
    {
      requests := requests + [texts];
      answer := service(|requests| - 1, texts);
    }
  }

  /**
   * The answers of the chunks, one after the other, are the answers to all texts, in order. What is sent
   * is the texts in chunks of 50, up to the first request that fails.
   */
  method Deepl(texts: seq<string>, connection: Connection, ghost f: string -> string)
    returns (response: Option<seq<string>>)
    requires Pointwise(connection.service, f) && connection.requests == []
    modifies connection
    ensures AreFullChunks(connection.requests)
    ensures if response.Some? then Concat(connection.requests) == texts
            else connection.requests != [] && Concat(connection.requests) <= texts
    ensures response.Some? ==> response.value == Map(t => CoerceTranslation(f(t)), texts)
    ensures (forall n, chunk :: connection.service(n, chunk).Some?) ==> response.Some?
  {
    var textChunks := Chunks(texts);
    var responses := PostAll(textChunks, connection, f);
    if |responses| < |textChunks| {
      ConcatOfPrefix(textChunks, |connection.requests|);
      return None;
    }
    assert textChunks[..|textChunks|] == textChunks;
    var merged: seq<string> := [];
    for n := 0 to |responses|
      invariant merged == Concat(responses[..n])
    {
      assert responses[..n + 1][..n] == responses[..n];
      merged := merged + responses[n];
    }
    assert responses[..|responses|] == responses;
    ConcatOfMaps(textChunks, responses, f);
    ghost var translated := merged;
    for i := 0 to |merged|
      invariant |merged| == |translated| && merged[i..] == translated[i..]
      invariant forall j | 0 <= j < i :: merged[j] == CoerceTranslation(translated[j])
    {
      merged := merged[i := CoerceTranslation(merged[i])];
    }
    response := Some(merged);
  }

  /** The loop over the chunks, which ends with the first request that fails. */
  method PostAll(textChunks: seq<seq<string>>, connection: Connection, ghost f: string -> string)
    returns (responses: seq<seq<string>>)
    requires Pointwise(connection.service, f) && connection.requests == []
    modifies connection
    ensures |responses| <= |textChunks| && forall i | 0 <= i < |responses| :: responses[i] == Map(f, textChunks[i])
    ensures if |responses| == |textChunks| then connection.requests == textChunks
            else connection.requests == textChunks[..|responses| + 1]
    ensures (forall n, chunk :: connection.service(n, chunk).Some?) ==> |responses| == |textChunks|
  {
    responses := [];
    for n := 0 to |textChunks|
      invariant |responses| == n && forall i | 0 <= i < n :: responses[i] == Map(f, textChunks[i])
      invariant connection.requests == textChunks[..n]
    {
      var answer := connection.Post(textChunks[n]);
      assert connection.requests == textChunks[..n + 1];
      if answer.None? {
        return;
      }
      responses := responses + [answer.value];
    }
  }

  lemma {:induction false} ConcatOfPrefix(chunks: seq<seq<string>>, n: nat)
    requires n <= |chunks|
    ensures Concat(chunks[..n]) <= Concat(chunks)
  {
    if n == |chunks| {
      assert chunks[..n] == chunks;
    } else {
      ConcatOfPrefix(chunks[..|chunks| - 1], n);
      assert chunks[..|chunks| - 1][..n] == chunks[..n];
    }
  }

  lemma {:induction false} ConcatOfMaps(chunks: seq<seq<string>>, answers: seq<seq<string>>, f: string -> string)
    requires |chunks| == |answers| && forall i | 0 <= i < |chunks| :: answers[i] == Map(f, chunks[i])
    ensures Concat(answers) == Map(f, Concat(chunks))
  {
    if chunks != [] {
      ConcatOfMaps(chunks[..|chunks| - 1], answers[..|answers| - 1], f);
    }
  }
}

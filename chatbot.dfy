/**
 * The local logic of `RAGChatbot` in rag_chatbot/chatbot.py: pulling the context
 * strings out of a Pinecone query response (`_retrieve`, after the network calls)
 * and assembling the prompt sent to the chat model (`_build_prompt`).
 */
module Chatbot {
  import opened Wrappers
  import opened Text

  /** One match of a query response; `metadata` is `None` when the match has no "metadata" key. */
  datatype Match = Match(metadata: Option<map<string, string>>)

  /** A query response; `matches` is `None` when the response has no "matches" key. */
  datatype QueryResponse = QueryResponse(matches: Option<seq<Match>>)

  /** `result.get("matches", [])`. */
  function MatchesOf(result: QueryResponse): seq<Match> {
    if result.matches.Some? then result.matches.value else []
  }

  /** `match.get("metadata", {}).get("chunk")`. */
  function ChunkOf(m: Match): Option<string> {
    if m.metadata.Some? && "chunk" in m.metadata.value then Some(m.metadata.value["chunk"]) else None
  }

  /** Whether `if chunk:` holds: the key is present and the string is not empty. */
  predicate HasContext(m: Match) {
    ChunkOf(m).Some? && ChunkOf(m).value != []
  }

  /** The contexts the loop collects from `matches`, in match order. */
  function ContextsOf(matches: seq<Match>): seq<string> {
    if matches == [] then []
    else
      var m := matches[|matches| - 1];
      ContextsOf(matches[..|matches| - 1]) + (if HasContext(m) then [ChunkOf(m).value] else [])
  }

  method ExtractContexts(result: QueryResponse) returns (contexts: seq<string>)
    ensures contexts == ContextsOf(MatchesOf(result))
  {
    var matches := if result.matches.Some? then result.matches.value else [];
    contexts := [];
    for i := 0 to |matches|
      invariant contexts == ContextsOf(matches[..i])
    {
      var metadata := if matches[i].metadata.Some? then matches[i].metadata.value else map[];
      var chunk := if "chunk" in metadata then Some(metadata["chunk"]) else None;
      if chunk.Some? && chunk.value != [] {
        contexts := contexts + [chunk.value];
      }
      assert matches[..i + 1][..i] == matches[..i];
    }
    assert matches[..|matches|] == matches;
  }

  // ---------------------------------------------------------------------------
  // Properties of the context extraction

  /** Extraction distributes over concatenation: the contexts keep the order of their matches. */
  lemma {:induction false} ContextsOfAppend(a: seq<Match>, b: seq<Match>)
    ensures ContextsOf(a + b) == ContextsOf(a) + ContextsOf(b)
    decreases |b|
  {
    if b == [] {
      assert a + b == a;
    } else {
      var init := b[..|b| - 1];
      ContextsOfAppend(a, init);
      assert (a + b)[..|a + b| - 1] == a + init;
      assert (a + b)[|a + b| - 1] == b[|b| - 1];
    }
  }

  /** A single match contributes its chunk when it is present and non-empty, and nothing otherwise. */
  lemma ContextsOfOne(m: Match)
    ensures ContextsOf([m]) == (if HasContext(m) then [ChunkOf(m).value] else [])
    ensures ContextsOf([m]) == [] <==> (m.metadata.None? || "chunk" !in m.metadata.value || m.metadata.value["chunk"] == [])
  {
    assert [m][..0] == [];
  }

  /** A string is a context exactly when some match carries it as a non-empty chunk. */
  lemma {:induction false} ContextsOfMembers(matches: seq<Match>, c: string)
    ensures c in ContextsOf(matches) <==> exists i :: 0 <= i < |matches| && HasContext(matches[i]) && ChunkOf(matches[i]).value == c
  {
    if matches != [] {
      var init := matches[..|matches| - 1];
      ContextsOfMembers(init, c);
      if exists i :: 0 <= i < |init| && HasContext(init[i]) && ChunkOf(init[i]).value == c {
        var i :| 0 <= i < |init| && HasContext(init[i]) && ChunkOf(init[i]).value == c;
        assert matches[i] == init[i];
      }
      if exists i :: 0 <= i < |matches| && HasContext(matches[i]) && ChunkOf(matches[i]).value == c {
        var i :| 0 <= i < |matches| && HasContext(matches[i]) && ChunkOf(matches[i]).value == c;
        if i < |init| {
          assert init[i] == matches[i];
        }
      }
    }
  }

  /** At most one context per match, and every context is non-empty. */
  lemma {:induction false} ContextsOfBounded(matches: seq<Match>)
    ensures |ContextsOf(matches)| <= |matches|
    ensures forall c :: c in ContextsOf(matches) ==> c != []
  {
    if matches != [] {
      ContextsOfBounded(matches[..|matches| - 1]);
    }
  }

  /** A response without "matches" gives no context. */
  lemma NoMatchesNoContext(result: QueryResponse)
    requires result.matches.None?
    ensures ContextsOf(MatchesOf(result)) == []
  {
  }

  // ---------------------------------------------------------------------------
  // `_build_prompt`

  const Header: string :=
    "Use the following context to answer the question.\n" +
    "If the answer is not contained within the context, say you do not know.\n" +
    "Context:\n"

  const ContextSeparator: string := "\n\n"

  function BuildPrompt(query: string, contexts: seq<string>): (prompt: string)
    ensures contexts == [] ==> prompt == query
    ensures contexts != [] ==> Header <= prompt && EndsWith(prompt, "\n\nQuestion: " + query)
  {
    if contexts == [] then query
    else
      var prompt := Header + Join(ContextSeparator, contexts) + "\n\n" + "Question: " + query;
      assert prompt[|prompt| - |"\n\nQuestion: " + query|..] == "\n\nQuestion: " + query;
      prompt
  }

  /** A prompt with contexts is the header, the joined contexts and the question, and nothing else. */
  lemma PromptLayout(query: string, contexts: seq<string>)
    requires contexts != []
    ensures var prompt := BuildPrompt(query, contexts);
      var tail := "\n\nQuestion: " + query;
      |prompt| == |Header| + |Join(ContextSeparator, contexts)| + |tail| &&
      prompt[|Header|..|prompt| - |tail|] == Join(ContextSeparator, contexts)
  {
  }

  /** Every context string occurs in the prompt built from it. */
  lemma PromptContainsEachContext(query: string, contexts: seq<string>, k: nat)
    requires k < |contexts|
    ensures IsSubstring(contexts[k], BuildPrompt(query, contexts))
  {
    var c := contexts[k];
    var joined := Join(ContextSeparator, contexts);
    JoinContainsEach(ContextSeparator, contexts, k);
    SubstringExtend(c, joined, Header, "");
    SubstringExtend(c, Header + joined, "", "\n\n");
    SubstringExtend(c, Header + joined + "\n\n", "", "Question: ");
    SubstringExtend(c, Header + joined + "\n\n" + "Question: ", "", query);
  }
}

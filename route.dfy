/** The POST handler of the flashcard-generation endpoint, with the completion service and
    `JSON.parse` passed in as inputs. */
module GenerateRoute {
  import opened Types
  import JsText

  const TextRequired := "Text is required"
  const GenerationFailed := "Failed to generate flashcards"
  const FallbackQuestion := "Generated from AI"

  /** The `text` member of the request body. */
  datatype TextField = Missing | Null | Str(s: string)

  /** The request body: `Malformed` when reading it as JSON, or destructuring it, throws. */
  datatype Request = Malformed | Json(text: TextField)

  /** What the chat-completion call produced: it threw, the first choice carried no
      message content, or it carried this content. */
  datatype Completion = CallFailed | NoContent | Content(content: string)

  /** The `flashcards` value sent back: whatever the parser produced, or the synthetic cards. */
  datatype Payload<J> = Parsed(value: J) | Fallback(cards: seq<Flashcard>)

  datatype Body<J> = ErrorBody(error: string) | CardsBody(flashcards: Payload<J>)

  datatype Response<J> = Response(status: int, body: Body<J>)

  /** JavaScript falsiness of the text field: absent, `null` or the empty string. */
  predicate Falsy(t: TextField) {
    t == Missing || t == Null || t == Str("")
  }

  /** The completion carries non-empty content. */
  predicate HasContent(c: Completion) {
    c.Content? && c.content != ""
  }

  /** The single card built when the completion cannot be parsed. */
  function FallbackCard(content: string): Flashcard {
    Flashcard(None, FallbackQuestion, content, None, None)
  }

  // ---------------------------------------------------------------------------
  // Bracket extraction: `content.match(/\[[\s\S]*\]/)`
  // ---------------------------------------------------------------------------

  /** Index of the first occurrence of `c` in `s`. */
  function FirstIndex(s: string, c: char): (r: Option<nat>)
    ensures r.Some? ==> r.value < |s| && s[r.value] == c
    ensures r.Some? ==> forall k :: 0 <= k < r.value ==> s[k] != c
    ensures r.None? ==> forall k :: 0 <= k < |s| ==> s[k] != c
  {
    if |s| == 0 then None
    else if s[0] == c then Some(0)
    else match FirstIndex(s[1..], c)
      case None => None
      case Some(k) => Some(k + 1)
  }

  /** Index of the last occurrence of `c` in `s`. */
  function LastIndex(s: string, c: char): (r: Option<nat>)
    ensures r.Some? ==> r.value < |s| && s[r.value] == c
    ensures r.Some? ==> forall k :: r.value < k < |s| ==> s[k] != c
    ensures r.None? ==> forall k :: 0 <= k < |s| ==> s[k] != c
  {
    if |s| == 0 then None
    else if s[|s| - 1] == c then Some(|s| - 1)
    else LastIndex(s[..|s| - 1], c)
  }

  /** Some `[` is followed, somewhere later, by a `]`. */
  predicate HasBracketPair(s: string) {
    exists i, j :: 0 <= i < j < |s| && s[i] == '[' && s[j] == ']'
  }

  /** `t` as a whole matches the pattern `\[[\s\S]*\]`. */
  predicate PatternMatches(t: string) {
    |t| >= 2 && t[0] == '[' && t[|t| - 1] == ']'
  }

  /** `s[i..j]` is the match a backtracking regex engine reports for `\[[\s\S]*\]`:
      the leftmost start at which the pattern matches, and from there the longest match
      (the greedy star tries the longest tail first). */
  ghost predicate LeftmostLongest(s: string, i: int, j: int) {
    0 <= i < j <= |s| && PatternMatches(s[i..j])
    && (forall a, b :: 0 <= a < i && a < b <= |s| ==> !PatternMatches(s[a..b]))
    && (forall b :: j < b <= |s| ==> !PatternMatches(s[i..b]))
  }

  /** `jsonMatch ? jsonMatch[0] : content`: from the first `[` through the last `]`,
      or the whole content when no `]` follows a `[`. */
  function Extract(content: string): (r: string)
    ensures !HasBracketPair(content) ==> r == content
    ensures HasBracketPair(content) ==> PatternMatches(r)
    ensures HasBracketPair(content) ==> exists i :: JsText.SegmentAt(r, content, i)
  {
    match (FirstIndex(content, '['), LastIndex(content, ']'))
    case (Some(i), Some(j)) =>
      if i < j then
        assert JsText.SegmentAt(content[i..j + 1], content, i);
        content[i..j + 1]
      else
        content
    case _ => content
  }

  /** `POST /api/generate-flashcards`. The request body, the completion and the parser are
      inputs, so the handler is a function of them. */
  function Post<J>(req: Request, completion: Completion, parse: string -> Option<J>): (r: Response<J>)
    ensures r.status == 200 || r.status == 400 || r.status == 500
    ensures r.status == 400 <==> req.Json? && Falsy(req.text)
    ensures r.status == 400 ==> r.body == ErrorBody(TextRequired)
    ensures r.status == 500 <==> req.Malformed? || (!Falsy(req.text) && !HasContent(completion))
    ensures r.status == 500 ==> r.body == ErrorBody(GenerationFailed)
    ensures r.status == 200 ==> HasContent(completion) && r.body.CardsBody?
    ensures r.status == 200 && parse(Extract(completion.content)).Some? ==>
              r.body.flashcards == Parsed(parse(Extract(completion.content)).value)
    ensures r.status == 200 && parse(Extract(completion.content)).None? ==>
              r.body.flashcards == Fallback([FallbackCard(completion.content)])
  {
    if req.Malformed? then Response(500, ErrorBody(GenerationFailed))
    else if Falsy(req.text) then Response(400, ErrorBody(TextRequired))
    else if !HasContent(completion) then Response(500, ErrorBody(GenerationFailed))
    else
      var content := completion.content;
      match parse(Extract(content))
      case Some(v) => Response(200, CardsBody(Parsed(v)))
      case None => Response(200, CardsBody(Fallback([FallbackCard(content)])))
  }

  // ---------------------------------------------------------------------------
  // Properties of the extraction
  // ---------------------------------------------------------------------------

  /** With a bracket pair, the extraction runs from the first `[` through the last `]`. */
  lemma ExtractFirstToLast(s: string, i: nat, j: nat)
    requires i < j < |s| && s[i] == '[' && s[j] == ']'
    requires forall k :: 0 <= k < i ==> s[k] != '['
    requires forall k :: j < k < |s| ==> s[k] != ']'
    ensures Extract(s) == s[i..j + 1]
  {
    assert FirstIndex(s, '[') == Some(i);
    assert LastIndex(s, ']') == Some(j);
  }

  /** The extraction agrees with the regex semantics: a match exists exactly when there is a
      bracket pair, and the extracted text is that match; with no match it is the content. */
  lemma ExtractIsRegexMatch(s: string)
    ensures HasBracketPair(s) <==> exists i, j :: LeftmostLongest(s, i, j)
    ensures forall i, j :: LeftmostLongest(s, i, j) ==> Extract(s) == s[i..j]
    ensures !HasBracketPair(s) ==> Extract(s) == s
  {
    if HasBracketPair(s) {
      var f, l := FirstIndex(s, '[').value, LastIndex(s, ']').value;
      var i, j :| 0 <= i < j < |s| && s[i] == '[' && s[j] == ']';
      assert f <= i && j <= l;
      assert LeftmostLongest(s, f, l + 1) by {
        assert s[f..l + 1][0] == s[f] && s[f..l + 1][l - f] == s[l];
        forall a, b | 0 <= a < f && a < b <= |s| ensures !PatternMatches(s[a..b]) {
          assert s[a..b][0] == s[a];
        }
        forall b | l + 1 < b <= |s| ensures !PatternMatches(s[f..b]) {
          assert s[f..b][b - 1 - f] == s[b - 1];
        }
      }
      forall i', j' | LeftmostLongest(s, i', j') ensures Extract(s) == s[i'..j'] {
        LeftmostLongestIsFirstToLast(s, i', j');
      }
    } else {
      forall i', j' | 0 <= i' < j' <= |s| ensures !PatternMatches(s[i'..j']) {
        assert s[i'] == s[i'..j'][0] && s[j' - 1] == s[i'..j'][j' - 1 - i'];
      }
    }
  }

  /** The regex match found by a backtracking engine is the first `[` through the last `]`. */
  lemma LeftmostLongestIsFirstToLast(s: string, i: int, j: int)
    requires LeftmostLongest(s, i, j)
    ensures Extract(s) == s[i..j]
  {
    assert s[i] == s[i..j][0] && s[j - 1] == s[i..j][j - 1 - i];
    var l := LastIndex(s, ']').value;
    assert j - 1 <= l;
    forall k | 0 <= k < i ensures s[k] != '[' {
      assert s[k..l + 1][0] == s[k] && s[k..l + 1][l - k] == s[l];
    }
    forall k | j - 1 < k < |s| ensures s[k] != ']' {
      assert s[i..k + 1][0] == s[i] && s[i..k + 1][k - i] == s[k];
    }
    ExtractFirstToLast(s, i, j - 1);
  }

  /** Extracting from an extracted string changes nothing. */
  lemma ExtractIdempotent(s: string)
    ensures Extract(Extract(s)) == Extract(s)
  {
    var t := Extract(s);
    if HasBracketPair(s) {
      assert PatternMatches(t);
      ExtractFirstToLast(t, 0, |t| - 1);
      assert t[0..|t|] == t;
    }
  }

  /** The fallback card answers with the full content, not with the extracted slice:
      the two differ whenever text precedes the brackets. */
  lemma FallbackKeepsFullContent<J>(req: Request, lead: string, bracketed: string, parse: string -> Option<J>)
    requires req.Json? && !Falsy(req.text)
    requires lead != "" && forall k :: 0 <= k < |lead| ==> lead[k] != '['
    requires PatternMatches(bracketed)
    requires parse(Extract(lead + bracketed)).None?
    ensures Post(req, Content(lead + bracketed), parse).body
              == CardsBody(Fallback([FallbackCard(lead + bracketed)]))
    ensures Extract(lead + bracketed) == bracketed != lead + bracketed
  {
    var content := lead + bracketed;
    assert content[|lead|] == bracketed[0] && content[|content| - 1] == bracketed[|bracketed| - 1];
    ExtractFirstToLast(content, |lead|, |content| - 1);
    assert content[|lead|..|content|] == bracketed;
  }
}

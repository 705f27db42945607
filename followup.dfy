/** The follow-up prompt of the chat routes (`get_further_response`,
    app.py lines 227-274): the previous prompt and response are
    concatenated, cut down to their most recent 2500 characters, given a
    closing remark that depends on the loan prediction, and framed as a new
    question. The call to the text service that follows is not modelled:
    the method returns the prompt it would send. */
module FollowUp {
  import opened Text

  /** The most context characters carried into a follow-up prompt. */
  const MaxContext := 2500

  const ApprovedRemark := "again congrats on your approved loan"
  const DeniedRemark := "again sorry about the unapproved loan"
  const QuestionLead := "Question: "
  const ContextLead := " | Previous Context: "
  const Instruction := " | Instruction: Provide a concise, direct answer within 800 characters."

  /** The `prediction` argument: the classifier's integer label stored in
      the session, or no label at all (`None` when the session has none,
      the empty string the business and finance chats pass). */
  datatype Prediction = Label(value: int) | Unset

  function Min(a: int, b: int): int
  {
    if a <= b then a else b
  }

  /** `s[::-1]`. */
  function Reverse(s: string): (r: string)
    ensures |r| == |s|
    ensures s != [] ==> r[0] == s[|s| - 1] && r[|s| - 1] == s[0]
  {
    seq(|s|, k requires 0 <= k < |s| => s[|s| - 1 - k])
  }

  /** Reversing the first `k` characters of a reversed string gives back the
      last `k` characters of the string. */
  lemma ReversedPrefix(s: string, k: nat)
    requires k <= |s|
    ensures Reverse(Reverse(s)[..k]) == s[|s| - k..]
  {
    var r := Reverse(s);
    var p := r[..k];
    var q := Reverse(p);
    var tail := s[|s| - k..];
    forall t | 0 <= t < k ensures q[t] == tail[t] {
      assert q[t] == p[k - 1 - t];
      assert p[k - 1 - t] == r[k - 1 - t];
      assert r[k - 1 - t] == s[|s| - k + t];
    }
    assert |q| == |tail|;
  }

  /** The specification of the truncation: the last min(MaxContext, |conv|)
      characters of the conversation, so a suffix of it that is never longer
      than MaxContext. */
  function RecentContext(conv: string): (r: string)
    ensures EndsWith(conv, r)
    ensures |r| == Min(MaxContext, |conv|) <= MaxContext
  {
    conv[|conv| - Min(MaxContext, |conv|)..]
  }

  /** A conversation is kept unchanged exactly when it fits in MaxContext. */
  lemma RecentContextKeepsShort(conv: string)
    ensures RecentContext(conv) == conv <==> |conv| <= MaxContext
  {
    if |conv| > MaxContext {
      assert |RecentContext(conv)| == MaxContext;
    }
  }

  /** Cutting the older part of a conversation down first loses nothing:
      only the most recent characters are ever kept. */
  lemma {:induction false} RecentContextOfCut(older: string, newer: string)
    ensures RecentContext(RecentContext(older) + newer) == RecentContext(older + newer)
  {
    var cut := RecentContext(older) + newer;
    var whole := older + newer;
    var m := Min(MaxContext, |whole|);
    assert Min(MaxContext, |cut|) == m;
    assert cut == whole[|whole| - |cut|..];
    assert cut[|cut| - m..] == whole[|whole| - m..];
  }

  /** Once the newer part alone fills the window, the older part is gone. */
  lemma RecentContextForgetsOlder(older: string, newer: string)
    requires |newer| >= MaxContext
    ensures RecentContext(older + newer) == RecentContext(newer)
  {
    var whole := older + newer;
    assert whole[|whole| - MaxContext..] == newer[|newer| - MaxContext..];
  }

  /** The remark appended after the context for each prediction. */
  function Remark(prediction: Prediction): (r: string)
    ensures r == ApprovedRemark || r == DeniedRemark || r == ""
  {
    if prediction == Label(0) then ApprovedRemark
    else if prediction == Label(1) then DeniedRemark
    else ""
  }

  /** Prediction 0 earns the congratulation, 1 the apology, anything else
      (another label, or none) no remark. */
  lemma RemarkCases(prediction: Prediction)
    ensures Remark(prediction) == ApprovedRemark <==> prediction == Label(0)
    ensures Remark(prediction) == DeniedRemark <==> prediction == Label(1)
    ensures Remark(prediction) == "" <==> prediction != Label(0) && prediction != Label(1)
  {
  }

  /** The truncation loop of `get_further_response`: walk the reversed
      conversation, keeping characters while fewer than MaxContext are kept,
      then reverse the kept characters back. */
  method KeepRecent(conv: string) returns (context: string)
    ensures context == RecentContext(conv)
  {
    var previousConv := "";
    var revConv := Reverse(conv);
    for i := 0 to |revConv|
      invariant previousConv == revConv[..Min(i, MaxContext)]
    {
      if |previousConv| < MaxContext {
        previousConv := previousConv + [revConv[i]];
      }
    }
    context := Reverse(previousConv);
    ReversedPrefix(conv, |previousConv|);
  }

  /** `get_further_response` up to the call to the text service. */
  method FurtherPrompt(prediction: Prediction, question: string, prevPrompt: string, prevResponse: string)
    returns (newPrompt: string)
    ensures newPrompt ==
      QuestionLead + question + ContextLead + (RecentContext(prevPrompt + prevResponse) + Remark(prediction)) +
      Instruction
  {
    var finalPreviousConv := KeepRecent(prevPrompt + prevResponse);

    var addText;
    if prediction == Label(0) {
      addText := ApprovedRemark;
    } else if prediction == Label(1) {
      addText := DeniedRemark;
    } else {
      addText := "";
    }
    finalPreviousConv := finalPreviousConv + addText;

    newPrompt := QuestionLead + question + ContextLead + finalPreviousConv + Instruction;
  }
}

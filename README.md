# InvestIQ prompt and reply text handling, in Dafny

InvestIQ is a Flask web application. It predicts loan approval with a
pre-trained classifier and gives financial guidance by sending templated
prompts to a hosted text-generation service. This project models the parts
of `app.py` that work on strings and can be stated exactly:

- **Follow-up prompt** (`get_further_response`). The previous prompt and
  the previous response are joined, and only their last 2500 characters are
  kept. The source does this in a loop over the reversed text, then reverses
  the result back. A remark chosen by the loan prediction is appended, and
  the result goes into a fixed `Question: … | Previous Context: … |
  Instruction: …` frame (module `FollowUp`, `followup.dfy`). The loop is an
  imperative method (`FollowUp.KeepRecent`) proved equal to the
  specification function `FollowUp.RecentContext`, "the last
  min(2500, n) characters".
- **Fence clean-up**. The expression
  ``re.sub(r"^```json|^```|```$", "", text.strip(), flags=re.MULTILINE).strip()``
  runs on every reply before it is parsed as JSON (module `Fences`,
  `fences.dfy`). It is modelled by its per-line effect. The text is stripped
  and split on `'\n'`. Each line loses a leading "```json", or else a
  leading "```". What is left then loses a trailing "```". The lines are
  re-joined with `'\n'` and the result is stripped. With `MULTILINE`, `^`
  and `$` match only at the ends of `'\n'`-separated lines. No alternative
  can match across a `'\n'` or match the empty string. So this per-line
  rule is what the substitution does.
- **Prompt builders**: the f-strings of `get_predict_message`,
  `get_business_idea` and `get_financial_advice` (module `Prompts`,
  `prompts.dfy`). Both advice prompts branch on whether the `capital_loan`
  field equals `"capital"`. Every other value takes the loan wording.
- Module `Text` (`text.dfy`) holds the string operations these rely on:
  Python's `str.strip()`, `str.split('\n')`, `'\n'.join`, and the
  `startswith`, `endswith` and `in` tests.

Choices made in the model:

- `str.strip()` removes the characters for which Python's `str.isspace()`
  holds. These are `\t`–`\r`, `\x1c`–`\x1f`, space, `\x85`, `\xa0`,
  U+1680, U+2000–U+200A, U+2028, U+2029, U+202F, U+205F and U+3000
  (`Text.IsSpace`). Characters are Unicode scalar values. A Python string may also hold lone
  surrogates, but none of them is whitespace or a backtick, so no
  behaviour modelled here depends on them.
- The `prediction` argument is `Label(n)` for the classifier's integer
  label. It is `Unset` for the `None` a missing session value gives and for
  the empty string that the business and finance chats pass
  (app.py:627, app.py:662). Neither equals 0 or 1 in Python.
- `app.py` is stored with CRLF line endings. Python reads source with
  universal newlines, so the triple-quoted JSON-shape templates contain
  `\n` only. The constants in `Prompts` are written that way.
- The previous prompt and response arrive as strings. The `str(...)` of
  `None` or of a parsed JSON value at app.py:246 happens before the model
  starts.

The comments at app.py:349 and app.py:399 speak of cleaning up a
markdown block of triple backticks. The code removes a fence at the start
or end of *every* line, not only around the block, and it runs after the
first `strip()` of the whole reply. A reply wrapped in fences cleans up as
its body's lines would with the body's own leading and trailing whitespace
still in place (`Fences.StripFencesWrappedAny`). So a fenced reply and the
bare body clean up alike when no line of the stripped body starts or ends
with "```" (`Fences.StripFencesIgnoresWrapper`). Under the same condition a
reply that only opens a fence, or only closes one, cleans up as its body
does (`Fences.StripFencesOpenedOnly`, `Fences.StripFencesClosedOnly`).
Otherwise they can differ:
the body `  ```a` cleans up to `a` on its own, but to ```` ```a ```` inside
fences, because there its leading spaces are still there while the regex
runs. The
truncation keeps a conversation of exactly 2500 characters whole
(`FollowUp.RecentContextKeepsShort`).

## Model

| member | source | states |
|---|---|---|
| `Text.IsSpace` | app.py:128 | the characters `strip()` removes, Python's `str.isspace()` set; space, tab, `'\n'` and `'\r'` are in it, and no printable ASCII character (so no backtick) is |
| `Text.Strip` | app.py:128 | `strip()` keeps a slice of its input with only whitespace outside it and no whitespace at either end of it |
| `Text.SkipSpace` | app.py:128 | the forward scan of `strip()` stops at the first character that is not whitespace, having passed only whitespace |
| `Text.SkipSpaceBack` | app.py:128 | the backward scan of `strip()` stops just after the last character that is not whitespace, never going below the forward scan's stop |
| `Text.StripUnique` | app.py:128 | any slice with only whitespace outside it and none at its ends is exactly what `strip()` returns, so the contract of `Strip` determines it |
| `Text.StripIdempotent` | app.py:128 | the second `.strip()` of the expression adds nothing to a text already stripped |
| `Text.StripPadded` | app.py:128 | whitespace around a text does not change what it strips to |
| `Text.Split` | app.py:128 | `split('\n')`: always at least one piece, no piece holds a `'\n'`, and the first piece starts the text; `JoinSplit` and `SplitJoin` pin it down as the inverse of `Join` |
| `Text.Join` | app.py:128 | `'\n'.join(lines)`: the lines with one `'\n'` between neighbours, so at least the first line plus one character per separator; `JoinSplit` and `SplitJoin` make it the inverse of `Split` |
| `Text.JoinSplit` | app.py:128 | re-joining the `'\n'`-separated lines gives the text back, so treating the text line by line loses nothing |
| `Text.SplitJoin` | app.py:128 | splitting joined newline-free lines gives the lines back |
| `Fences.StripLine` | app.py:128 | one line is the removed prefix, then the result, then the removed suffix. The prefix is ```` ```json ```` exactly when the line starts with it, otherwise ```` ``` ```` exactly when the line starts with that, otherwise empty. The suffix is ```` ``` ```` exactly when what follows the prefix ends with ```` ``` ````, otherwise empty. The line is unchanged if and only if it neither starts nor ends with ```` ``` ```` |
| `Fences.LeadingFence` | app.py:128 | the two start-of-line alternatives tried in order: ```` ```json ```` when the line starts with it, else ```` ``` ```` when it starts with that, else nothing; always a prefix of the line |
| `Fences.StripLineDetermined` | app.py:128 | the contract of `StripLine` has exactly one solution, so it fixes what the substitution leaves of every line |
| `Fences.StripLines` | app.py:128 | the substitution applied to every line: as many lines come out as go in, none is longer than before, and a line that neither starts nor ends with ```` ``` ```` comes out unchanged |
| `Fences.StripFences` | app.py:128 | the cleaned reply never starts or ends with whitespace |
| `Fences.StripFencesNoLonger` | app.py:128 | the clean-up only deletes characters: the result is never longer than the reply |
| `Fences.StripFencesNoFence` | app.py:350 | a reply containing no ```` ``` ```` is returned with only its surrounding whitespace removed |
| `Fences.StripFencesUnfenced` | app.py:400 | when no line of the stripped reply starts or ends with ```` ``` ````, the clean-up equals `strip()` |
| `Fences.StripFencesWrappedAny` | app.py:128 | for every body, ```` ```json ```` (or ```` ``` ````) + `'\n'` + body + `'\n'` + ```` ``` ```` cleans up to the body's own lines, each cleaned by the per-line rule, re-joined and stripped: the two fence lines vanish and nothing else changes |
| `Fences.StripFencesWrapped` | app.py:128 | ```` ```json ```` (or ```` ``` ````) + `'\n'` + body + `'\n'` + ```` ``` ```` cleans up to the stripped body, provided no line of the body starts or ends with ```` ``` ```` |
| `Fences.StripFencesIgnoresWrapper` | app.py:128 | when no line of the stripped body starts or ends with ```` ``` ````, a fenced reply and the bare body clean up to the same text |
| `Fences.StripFencesOpenedOnly` | app.py:128 | when no line of the stripped body starts or ends with ```` ``` ````, an opening ```` ```json ```` (or ```` ``` ````) line with no closing fence vanishes: the reply cleans up as the bare body does |
| `Fences.StripFencesClosedOnly` | app.py:128 | when no line of the stripped body starts or ends with ```` ``` ````, a closing ```` ``` ```` line with no opening fence vanishes: the reply cleans up as the bare body does |
| `Fences.FenceFreeUnstripped` | app.py:128 | whitespace around a body adds no line that starts or ends with ```` ``` ````: if the stripped body has none, the body has none |
| `FollowUp.Reverse` | app.py:248-256 | `[::-1]`: same length, first and last characters exchanged; `ReversedPrefix` relates the two reversals the source makes |
| `FollowUp.FurtherPrompt` | app.py:245-269 | the new prompt is the fixed question lead, the question, the fixed context lead, then the last min(2500, n) characters of prompt + response followed by the remark for the prediction, then the fixed instruction asking for an answer within 800 characters; the three fixed pieces are the source's literals (`FollowUp.QuestionLead`, `FollowUp.ContextLead`, `FollowUp.Instruction`) |
| `FollowUp.KeepRecent` | app.py:247-256 | the loop that walks the reversed conversation, appends while fewer than 2500 characters are kept, and reverses back yields exactly `RecentContext`, the last min(2500, n) characters |
| `FollowUp.ReversedPrefix` | app.py:248-256 | reversing the first k characters of the reversed text gives the last k characters of the text |
| `FollowUp.RecentContext` | app.py:246-256 | the context kept from prompt + response is a suffix of it, exactly min(2500, n) characters long and never over 2500 |
| `FollowUp.RecentContextKeepsShort` | app.py:251-256 | the context equals the whole conversation if and only if the conversation has at most 2500 characters |
| `FollowUp.RecentContextOfCut` | app.py:251-253 | cutting the older part down first gives the same context: only the most recent characters are ever kept |
| `FollowUp.RecentContextForgetsOlder` | app.py:251-253 | once the newer part alone has 2500 characters, the older part has no effect on the context |
| `FollowUp.Remark` | app.py:259-266 | the text appended after the context is the congratulation, the apology or nothing |
| `FollowUp.RemarkCases` | app.py:259-266 | prediction 0 appends the congratulation, 1 the apology, and anything else (another label, `None`, `""`) nothing; each case holds if and only if its condition does |
| `Prompts.LoanResourcePrompt` | app.py:126 | the loan-resource prompt ends with the fixed request, JSON shape and closing sentence |
| `Prompts.LoanResourcePromptNamesCountry` | app.py:126 | the loan-resource prompt contains `"my country is " + country`, and different countries give different prompts |
| `Prompts.Funding` | app.py:326-330 | the phrase about how the applicant is funded always names the amount |
| `Prompts.FundingRevealsMode` | app.py:327-330 | the funding phrase starts with `"I have a capital of " + amount + " US Dollars"` if and only if `capital_loan == "capital"`. Every other value gives the phrase `"I got a loan of " + amount + " US Dollars and I am meant to pay back in " + months + " months time"` |
| `Prompts.FundingMonths` | app.py:376-379 | with capital the repayment months do not affect the phrase; with a loan, equal phrases mean equal months |
| `Prompts.BusinessIdeaPrompt` | app.py:326-330 | the business-idea prompt carries the funding phrase for the form's mode, amount and months |
| `Prompts.FinancialAdvicePrompt` | app.py:375-379 | the financial-advice prompt carries the funding phrase for the form's mode, amount and months |
| `Prompts.BusinessIdeaPromptContent` | app.py:326-330 | the business-idea prompt starts with "Hi, I'm from " + country, contains the funding phrase, the domain clause and "the country where I want to have my business is " + country of interest, and ends with the JSON shape + " Thanks." It does not depend on the months with capital, and is determined by them with a loan |
| `Prompts.FinancialAdvicePromptContent` | app.py:375-379 | the same for the financial-advice prompt, whose domain clause also carries the description, which also names the country of interest, and which ends with the JSON shape + "." |

## Left out

- The text-generation client (`get_gemini_response`, `gemini_generate_content`, `get_response`, app.py:54-114) is network I/O. `FollowUp.FurtherPrompt` returns the prompt that would be sent (app.py:269). The call at app.py:272 and its reply are not modelled.
- `json.loads` and the fallback to `[]` (app.py:129-135, 353-359, 403-409) are not modelled; the JSON parser is a foreign library. The same goes for the dict/str dispatch on the reply (app.py:337-347, 390-397) and the `"Error:"` prefix check (app.py:385-387), which only route a reply to that fallback.
- Flask routes, templates, `jsonify`, the session store and `handle_form` (app.py:30-50, 140-217, 279-302, 414-672) are web glue. This includes the "Country not found in session" error.
- The pre-trained classifier and its inference call (app.py:20, 448-449) are opaque.
- Environment and secret configuration (app.py:14, 17) is left out.

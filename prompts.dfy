/** The prompts sent to the text service by `get_predict_message`
    (app.py:118-126), `get_business_idea` (app.py:308-330) and
    `get_financial_advice` (app.py:364-379). Each is a pure function of the
    form fields; each ends with the literal JSON shape the reply must take. */
module Prompts {
  import opened Text

  /** The reply shape requested for loan resources (app.py:119-125). */
  const LoanResourceFormat :=
    "\n    [\n        {\n" +
    "            \"myCountry\": {\"organizationName\": \"\", \"link\": \"\"},\n" +
    "            \"otherCountry\": {\"organizationName\": \"\", \"link\": \"\", \"Country\": \"\"}\n" +
    "        }\n    ]"

  /** The reply shape requested for business ideas (app.py:312-325). */
  const BusinessIdeaFormat :=
    "\n    [\n" +
    "        {\n            \"Business_Idea\": \"\",\n            \"sector\": \"\",\n            \"link\": \"\"\n        },\n" +
    "        {\n            \"Business_Idea\": \"\",\n            \"sector\": \"\",\n            \"link\": \"\"\n        }\n" +
    "    ]\n    "

  /** The reply shape requested for financial advice (app.py:368-373). */
  const FinancialAdviceFormat :=
    "\n    {\n        \"financial_breakdown\": \"\",\n        \"link\": \"\"\n    }\n    "

  const CapitalMode := "capital"

  /** `get_predict_message`'s prompt. */
  function LoanResourcePrompt(country: string): (r: string)
    ensures EndsWith(r, LoanResourceRequest)
  {
    Affixes("Hi, " + "my country is " + country, LoanResourceRequest);
    "Hi, " + "my country is " + country + LoanResourceRequest
  }

  const LoanResourceRequest :=
    ". Kindly give me a list of places I can get a good loan for my small business." +
    " Reply only in this JSON format without explanation: " + LoanResourceFormat +
    " Ensure links are valid and use organization names."

  /** How the applicant is funded, in the words both advice prompts use:
      the `capital_loan` field equal to "capital" selects the capital
      phrasing, any other value the loan phrasing. */
  function Funding(capitalLoan: string, amount: string, loanPayMonth: string): (r: string)
    ensures Contains(r, amount)
  {
    if capitalLoan == CapitalMode then
      ContainsMiddle("I have a capital of ", amount, " US Dollars");
      "I have a capital of " + amount + " US Dollars"
    else
      var tail := " US Dollars and I am meant to pay back in " + loanPayMonth + " months time";
      ContainsMiddle("I got a loan of ", amount, tail);
      assert "I got a loan of " + amount + tail ==
        "I got a loan of " + amount + " US Dollars and I am meant to pay back in " + loanPayMonth + " months time";
      "I got a loan of " + amount + " US Dollars and I am meant to pay back in " + loanPayMonth + " months time"
  }

  /** `get_business_idea`'s prompt: its fixed opening, the funding phrase,
      its fixed closing. */
  function BusinessIdeaPrompt(country: string, countryInterest: string, capitalLoan: string,
                              amount: string, domainInterest: string, loanPayMonth: string): (r: string)
    ensures Contains(r, Funding(capitalLoan, amount, loanPayMonth))
  {
    ContainsMiddle(BusinessIdeaOpening(country), Funding(capitalLoan, amount, loanPayMonth),
                   BusinessIdeaClosing(domainInterest, countryInterest));
    BusinessIdeaOpening(country) + Funding(capitalLoan, amount, loanPayMonth) +
    BusinessIdeaClosing(domainInterest, countryInterest)
  }

  function BusinessIdeaOpening(country: string): string
  {
    CountryLead(country) + BusinessIdeaAsk
  }

  const BusinessIdeaAsk :=
    ". Kindly help curate few nice business ideas, the domain sector of the business and like to learn more on the business, considering that "

  function BusinessIdeaClosing(domainInterest: string, countryInterest: string): string
  {
    DomainClause(domainInterest) + " and " + CountryOfInterestClause(countryInterest) + BusinessIdeaRequest
  }

  const BusinessIdeaRequest := ". Give the answer strictly in this format: " + BusinessIdeaFormat + " Thanks."

  /** `get_financial_advice`'s prompt: its fixed opening, the funding
      phrase, its fixed closing. */
  function FinancialAdvicePrompt(country: string, countryInterest: string, description: string, capitalLoan: string,
                                 amount: string, domainInterest: string, loanPayMonth: string): (r: string)
    ensures Contains(r, Funding(capitalLoan, amount, loanPayMonth))
  {
    ContainsMiddle(FinancialAdviceOpening(country), Funding(capitalLoan, amount, loanPayMonth),
                   FinancialAdviceClosing(domainInterest, description, countryInterest));
    FinancialAdviceOpening(country) + Funding(capitalLoan, amount, loanPayMonth) +
    FinancialAdviceClosing(domainInterest, description, countryInterest)
  }

  function FinancialAdviceOpening(country: string): string
  {
    CountryLead(country) + FinancialAdviceAsk
  }

  const FinancialAdviceAsk :=
    ". Kindly help curate a comprehensive financial breakdown with link to read more on it, for how I would manage my business considering that "

  function FinancialAdviceClosing(domainInterest: string, description: string, countryInterest: string): string
  {
    DomainClause(domainInterest) + DescriptionClause(description) + ", and " +
    CountryOfInterestClause(countryInterest) + FinancialAdviceRequest
  }

  const FinancialAdviceRequest := ". Make your answer strictly in this format: " + FinancialAdviceFormat + "."

  /** The opening both advice prompts share. */
  function CountryLead(country: string): string
  {
    "Hi, I'm from " + country
  }

  /** The clause both advice prompts give the business domain in. */
  function DomainClause(domainInterest: string): string
  {
    ". My domain of business interest is " + domainInterest
  }

  /** The clause both advice prompts name the country of interest in. */
  function CountryOfInterestClause(countryInterest: string): string
  {
    "the country where I want to have my business is " + countryInterest
  }

  function DescriptionClause(description: string): string
  {
    ", the description is: " + description
  }

  /** The loan-resource prompt names the applicant's country as
      "my country is <country>", and different countries give different
      prompts. */
  lemma LoanResourcePromptNamesCountry(country: string, other: string)
    ensures Contains(LoanResourcePrompt(country), "my country is " + country)
    ensures LoanResourcePrompt(country) == LoanResourcePrompt(other) ==> country == other
  {
    assert "Hi, " + "my country is " + country == "Hi, " + ("my country is " + country);
    ContainsMiddle("Hi, ", "my country is " + country, LoanResourceRequest);
    if LoanResourcePrompt(country) == LoanResourcePrompt(other) {
      CancelAround("Hi, " + "my country is ", country, other, LoanResourceRequest);
    }
  }

  /** The funding phrase says "I have a capital of" exactly when the mode
      field is "capital"; every other value gets the loan phrasing. */
  lemma FundingRevealsMode(capitalLoan: string, amount: string, loanPayMonth: string)
    ensures StartsWith(Funding(capitalLoan, amount, loanPayMonth), "I have a capital of " + amount + " US Dollars")
            <==> capitalLoan == CapitalMode
    ensures capitalLoan != CapitalMode ==>
            Funding(capitalLoan, amount, loanPayMonth) ==
            "I got a loan of " + amount + " US Dollars and I am meant to pay back in " + loanPayMonth + " months time"
  {
    var phrase := Funding(capitalLoan, amount, loanPayMonth);
    if capitalLoan != CapitalMode {
      assert phrase[2] == 'g';
      assert ("I have a capital of " + amount + " US Dollars")[2] == 'h';
    }
  }

  /** With capital, the repayment months do not reach the phrase; with a
      loan, the phrase determines them. */
  lemma FundingMonths(capitalLoan: string, amount: string, months: string, otherMonths: string)
    ensures capitalLoan == CapitalMode ==> Funding(capitalLoan, amount, months) == Funding(capitalLoan, amount, otherMonths)
    ensures capitalLoan != CapitalMode && Funding(capitalLoan, amount, months) == Funding(capitalLoan, amount, otherMonths)
            ==> months == otherMonths
  {
    if capitalLoan != CapitalMode && Funding(capitalLoan, amount, months) == Funding(capitalLoan, amount, otherMonths) {
      CancelAround("I got a loan of " + amount + " US Dollars and I am meant to pay back in ", months, otherMonths, " months time");
    }
  }

  /** The business-idea prompt opens with the applicant's country, carries
      the funding phrase and the domain, and ends with the requested shape;
      it ignores the repayment months with capital and is determined by
      them with a loan. */
  lemma BusinessIdeaPromptContent(country: string, countryInterest: string, capitalLoan: string,
                                  amount: string, domainInterest: string, months: string, otherMonths: string)
    ensures var p := BusinessIdeaPrompt(country, countryInterest, capitalLoan, amount, domainInterest, months);
      StartsWith(p, "Hi, I'm from " + country) &&
      Contains(p, Funding(capitalLoan, amount, months)) &&
      Contains(p, ". My domain of business interest is " + domainInterest) &&
      Contains(p, "the country where I want to have my business is " + countryInterest) &&
      EndsWith(p, BusinessIdeaFormat + " Thanks.")
    ensures var p := BusinessIdeaPrompt(country, countryInterest, capitalLoan, amount, domainInterest, months);
      var q := BusinessIdeaPrompt(country, countryInterest, capitalLoan, amount, domainInterest, otherMonths);
      (capitalLoan == CapitalMode ==> p == q) &&
      (capitalLoan != CapitalMode && p == q ==> months == otherMonths)
  {
    var opening := BusinessIdeaOpening(country);
    var closing := BusinessIdeaClosing(domainInterest, countryInterest);
    var domain := DomainClause(domainInterest);
    var clause := CountryOfInterestClause(countryInterest);
    var mid := domain + " and " + clause;
    Affixes(CountryLead(country), BusinessIdeaAsk);
    Affixes(mid, BusinessIdeaRequest);
    StartsWithChain(domain, " and ", clause, BusinessIdeaRequest);
    ContainsMiddle(domain + " and ", clause, BusinessIdeaRequest);
    ContainsAfter(opening + Funding(capitalLoan, amount, months), closing, clause);
    EndsWithPair(". Give the answer strictly in this format: ", BusinessIdeaFormat, " Thanks.");
    EndsWithTrans(closing, BusinessIdeaRequest, BusinessIdeaFormat + " Thanks.");
    AdvicePrompt(opening, closing, capitalLoan, amount, months, otherMonths, CountryLead(country), domain,
                 BusinessIdeaFormat + " Thanks.");
  }

  /** The same for the financial-advice prompt, which also carries the
      business description. */
  lemma FinancialAdvicePromptContent(country: string, countryInterest: string, description: string, capitalLoan: string,
                                     amount: string, domainInterest: string, months: string, otherMonths: string)
    ensures var p := FinancialAdvicePrompt(country, countryInterest, description, capitalLoan, amount, domainInterest, months);
      StartsWith(p, "Hi, I'm from " + country) &&
      Contains(p, Funding(capitalLoan, amount, months)) &&
      Contains(p, ". My domain of business interest is " + domainInterest + ", the description is: " + description) &&
      Contains(p, "the country where I want to have my business is " + countryInterest) &&
      EndsWith(p, FinancialAdviceFormat + ".")
    ensures var p := FinancialAdvicePrompt(country, countryInterest, description, capitalLoan, amount, domainInterest, months);
      var q := FinancialAdvicePrompt(country, countryInterest, description, capitalLoan, amount, domainInterest, otherMonths);
      (capitalLoan == CapitalMode ==> p == q) &&
      (capitalLoan != CapitalMode && p == q ==> months == otherMonths)
  {
    var opening := FinancialAdviceOpening(country);
    var closing := FinancialAdviceClosing(domainInterest, description, countryInterest);
    var lead := DomainClause(domainInterest) + DescriptionClause(description);
    var clause := CountryOfInterestClause(countryInterest);
    var mid := lead + ", and " + clause;
    Affixes(CountryLead(country), FinancialAdviceAsk);
    Affixes(mid, FinancialAdviceRequest);
    StartsWithChain(lead, ", and ", clause, FinancialAdviceRequest);
    ContainsMiddle(lead + ", and ", clause, FinancialAdviceRequest);
    ContainsAfter(opening + Funding(capitalLoan, amount, months), closing, clause);
    EndsWithPair(". Make your answer strictly in this format: ", FinancialAdviceFormat, ".");
    EndsWithTrans(closing, FinancialAdviceRequest, FinancialAdviceFormat + ".");
    assert lead == ". My domain of business interest is " + domainInterest + ", the description is: " + description;
    AdvicePrompt(opening, closing, capitalLoan, amount, months, otherMonths, CountryLead(country), lead,
                 FinancialAdviceFormat + ".");
  }

  /** What both advice prompts share: an opening, the funding phrase and a
      closing, so the prompt shows the opening's lead, the funding phrase,
      the closing's lead and its last part, and the months reach it only
      with a loan. */
  lemma AdvicePrompt(opening: string, closing: string, capitalLoan: string, amount: string,
                     months: string, otherMonths: string, lead: string, closingLead: string, last: string)
    requires StartsWith(opening, lead) && StartsWith(closing, closingLead) && EndsWith(closing, last)
    ensures var p := opening + Funding(capitalLoan, amount, months) + closing;
      StartsWith(p, lead) && Contains(p, Funding(capitalLoan, amount, months)) &&
      Contains(p, closingLead) && EndsWith(p, last)
    ensures var p := opening + Funding(capitalLoan, amount, months) + closing;
      var q := opening + Funding(capitalLoan, amount, otherMonths) + closing;
      (capitalLoan == CapitalMode ==> p == q) &&
      (capitalLoan != CapitalMode && p == q ==> months == otherMonths)
  {
    var phrase := Funding(capitalLoan, amount, months);
    var otherPhrase := Funding(capitalLoan, amount, otherMonths);
    PromptFrame(opening, phrase, closing, lead, closingLead, last);
    FundingMonths(capitalLoan, amount, months, otherMonths);
    if capitalLoan != CapitalMode && opening + phrase + closing == opening + otherPhrase + closing {
      CancelAround(opening, phrase, otherPhrase, closing);
    }
  }

  /** A prompt made of an opening, a middle phrase and a closing starts as
      the opening starts, contains the phrase and whatever the closing
      starts with, and ends as the closing ends. */
  lemma PromptFrame(opening: string, phrase: string, closing: string, lead: string, closingLead: string, last: string)
    requires StartsWith(opening, lead) && StartsWith(closing, closingLead) && EndsWith(closing, last)
    ensures var p := opening + phrase + closing;
      StartsWith(p, lead) && Contains(p, phrase) && Contains(p, closingLead) && EndsWith(p, last)
  {
    var p := opening + phrase + closing;
    assert p[..|lead|] == opening[..|lead|];
    ContainsMiddle(opening, phrase, closing);
    assert p[|opening + phrase|..|opening + phrase| + |closingLead|] == closing[..|closingLead|];
    assert OccursAt(p, closingLead, |opening + phrase|);
    assert p[|p| - |last|..] == closing[|closing| - |last|..];
  }
}

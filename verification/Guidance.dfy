/** Composing the bounded guidance block: two sections share one byte budget. */
module Guidance {
  import opened Utf8

  const COMBINED_MAX_BYTES := 12 * 1024
  const SEPARATOR := Encode("\n\n")

  /** The texts around the body, each with the blank line that sets it off. */
  datatype Framing = Framing(prefix: Bytes, suffix: Bytes)

  /** The framing leaves room for a separator. */
  predicate Fits(f: Framing) {
    f.prefix != [] && |f.prefix| + |f.suffix| + |SEPARATOR| <= COMBINED_MAX_BYTES
  }

  function Max(a: int, b: int): int { if a > b then a else b }

  function BodyBudget(f: Framing): nat {
    Max(COMBINED_MAX_BYTES - |f.prefix| - |f.suffix|, 0)
  }

  predicate IsBlank(b: byte) {
    b == 0x20 || b == 0x09 || b == 0x0A
  }

  /** The characters that are blank. */
  lemma BlankCharacters(c: char)
    ensures IsBlank(EncodeChar(c)[0]) <==> c == ' ' || c == '\t' || c == '\n'
  {
    CharReadsBack(c);
  }

  /** Without its trailing spaces, tabs and line breaks. */
  function TrimBlank(b: Bytes): (r: Bytes)
    ensures r <= b && forall i :: |r| <= i < |b| ==> IsBlank(b[i])
    ensures r != [] ==> !IsBlank(r[|r| - 1])
  {
    if b != [] && IsBlank(b[|b| - 1]) then TrimBlank(b[..|b| - 1]) else b
  }

  /** A section kept to a budget: the longest prefix of whole characters, without trailing blanks. */
  ghost predicate Kept(section: string, budget: nat, kept: Bytes) {
    exists k: nat :: LongestFit(section, budget, k) && kept == TrimBlank(Encode(section[..k]))
  }

  /**
   * Two budgets share what is available: together exactly that; each section gets its length or its half;
   * neither is cut when both fit; and when one is cut, the other holds no more than its need or its half.
   */
  ghost predicate FairShare(available: nat, first: nat, second: nat, firstBudget: nat, secondBudget: nat) {
    && firstBudget + secondBudget == available
    && (first <= firstBudget || firstBudget >= available / 2)
    && (second <= secondBudget || secondBudget >= available - available / 2)
    && (first + second <= available ==> first <= firstBudget && second <= secondBudget)
    && (first > firstBudget ==> secondBudget <= Max(second, available - available / 2))
    && (second > secondBudget ==> firstBudget <= Max(first, available / 2))
  }

  method ShareBudget(available: nat, organization: nat, workflow: nat)
    returns (organizationBudget: nat, workflowBudget: nat)
    ensures FairShare(available, organization, workflow, organizationBudget, workflowBudget)
  {
    organizationBudget := available / 2;
    workflowBudget := available - organizationBudget;
    if organization < organizationBudget {
      workflowBudget := workflowBudget + (organizationBudget - organization);
      organizationBudget := organization;
    } else if workflow < workflowBudget {
      organizationBudget := organizationBudget + (workflowBudget - workflow);
      workflowBudget := workflow;
    }
  }

  method KeepSection(section: string, budget: nat) returns (kept: Bytes)
    ensures Kept(section, budget, kept) && |kept| <= budget
    ensures ByteLength(section) <= budget ==> kept == TrimBlank(Encode(section))
  {
    var cut := TruncateUtf8(Encode(section), budget);
    ghost var k := TruncationIsLongestFit(section, budget, cut);
    kept := TrimBlank(cut);
  }

  /** The body of a block: one section within the budget, or two sections each kept to its share. */
  ghost predicate BodyOf(organization: string, workflow: string, budget: nat, separator: Bytes, body: Bytes) {
    if organization == "" then Kept(workflow, budget, body)
    else if workflow == "" then Kept(organization, budget, body)
    else
      exists organizationBudget: nat, workflowBudget: nat, first, second ::
        && FairShare(Max(budget - |separator|, 0), ByteLength(organization), ByteLength(workflow),
                     organizationBudget, workflowBudget)
        && Kept(organization, organizationBudget, first) && Kept(workflow, workflowBudget, second)
        && body == first + separator + second
  }

  method ComposeBody(organization: string, workflow: string, budget: nat, separator: Bytes) returns (body: Bytes)
    requires |separator| <= budget
    ensures BodyOf(organization, workflow, budget, separator, body) && |body| <= budget
    ensures organization != "" && workflow != ""
            && ByteLength(organization) + ByteLength(workflow) + |separator| <= budget ==>
              body == TrimBlank(Encode(organization)) + separator + TrimBlank(Encode(workflow))
  {
    if organization == "" {
      body := KeepSection(workflow, budget);
    } else if workflow == "" {
      body := KeepSection(organization, budget);
    } else {
      var available := Max(budget - |separator|, 0);
      var organizationBudget, workflowBudget := ShareBudget(available, |Encode(organization)|, |Encode(workflow)|);
      var first := KeepSection(organization, organizationBudget);
      var second := KeepSection(workflow, workflowBudget);
      body := first + separator + second;
    }
  }

  /** Never longer than the cap, and empty without guidance. */
  method ComposeBlock(f: Framing, organization: string, workflow: string) returns (block: Bytes)
    requires Fits(f)
    ensures |block| <= 12_288
    ensures block == [] <==> organization == "" && workflow == ""
    ensures organization != "" || workflow != "" ==>
              exists body :: BodyOf(organization, workflow, BodyBudget(f), SEPARATOR, body)
                             && block == f.prefix + body + f.suffix
  {
    if organization == "" && workflow == "" {
      return [];
    }
    var budget, separator := BodyBudget(f), SEPARATOR;
    var body := ComposeBody(organization, workflow, budget, separator);
    block := Enclose(f.prefix, body, f.suffix);
  }

  method Enclose(prefix: Bytes, body: Bytes, suffix: Bytes) returns (block: Bytes)
    ensures block == prefix + body + suffix && |block| == |prefix| + |body| + |suffix|
  {
    block := prefix + body + suffix;
  }
}

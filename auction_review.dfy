// The admin review page admin/js/auction-review.js: the decision the form
// sends, and the text helpers for shipping, description and initials.
module AuctionReview {
  import opened Wrappers
  import opened Text
  import opened Market
  import Lists

  /** The status a choice of the decision select stands for. */
  function DecisionStatus(choice: string): (s: Status)
    ensures choice == "approve" ==> s == Active
    ensures choice == "reject" ==> s == Rejected
    ensures choice == "pending" ==> s == MoreInfo
    ensures choice != "approve" && choice != "reject" && choice != "pending" ==> s == PendingVerification
  {
    if choice == "approve" then Active
    else if choice == "reject" then Rejected
    else if choice == "pending" then MoreInfo
    else PendingVerification
  }

  datatype Decision =
    | ReasonMissing
    | MessageMissing
    | SendDecision(status: Status, notes: string, reason: Option<string>, message: Option<string>)

  /**
   * The submit handler: a rejection needs a reason, then a message; no
   * request is made without them. Reason and message are sent only with a
   * rejection.
   */
  function Decide(choice: string, notes: string, reason: string, message: string): (d: Decision)
    ensures d == ReasonMissing <==> choice == "reject" && reason == []
    ensures d == MessageMissing <==> choice == "reject" && reason != [] && message == []
    ensures d.SendDecision? ==> d.status == DecisionStatus(choice) && d.notes == notes
    ensures d.SendDecision? && choice != "reject" ==> d.reason.None? && d.message.None?
    ensures d.SendDecision? && choice == "reject" ==> d.reason == Some(reason) && d.message == Some(message)
  {
    var status := DecisionStatus(choice);
    if status == Rejected then
      if reason == [] then ReasonMissing
      else if message == [] then MessageMissing
      else SendDecision(status, notes, Some(reason), Some(message))
    else SendDecision(status, notes, None, None)
  }

  /**
   * What the server then stores (PUT /admin/verify): a decision that is not a
   * rejection clears the rejection fields, a rejection stores both texts,
   * and the decision is stamped with time and admin.
   */
  lemma DecisionStored(a: Auction, choice: string, notes: string, reason: string, message: string, now: int, adminId: nat)
    requires Decide(choice, notes, reason, message).SendDecision?
    ensures var d := Decide(choice, notes, reason, message);
      var b := Verified(a, d.status, Some(d.notes), d.reason, d.message, now, adminId);
      b.status == DecisionStatus(choice) && b.verifiedAt == Some(now) && b.verifiedBy == Some(adminId) &&
      (choice != "reject" ==> b.rejectionReason.None? && b.rejectionMessage.None?) &&
      (choice == "reject" ==> b.rejectionReason == Some(reason) && b.rejectionMessage == Some(message))
  {
  }

  /** One shipping code as the review page names it; unknown codes are shown as they are. */
  function ShippingLabel(code: string): (r: string)
    ensures code == "domestic" ==> r == "Domestic Shipping"
    ensures code == "international" ==> r == "International Shipping"
    ensures code == "pickup" ==> r == "Local Pickup"
    ensures code != "domestic" && code != "international" && code != "pickup" ==> r == code
  {
    if code == "domestic" then "Domestic Shipping"
    else if code == "international" then "International Shipping"
    else if code == "pickup" then "Local Pickup"
    else code
  }

  /** `formatShippingOptions`: 'None specified' for a missing, non-array or empty value; else the labels, in order, joined with ", ". */
  function FormatShippingOptions(options: Option<seq<string>>): (r: string)
    ensures options.None? || options.value == [] ==> r == "None specified"
    ensures options.Some? && |options.value| == 1 ==> r == ShippingLabel(options.value[0])
  {
    if options.None? || options.value == [] then "None specified"
    else Join(Lists.Map(options.value, ShippingLabel), ", ")
  }

  /** The labelled list is the first label followed by the rest, so every option appears in its place. */
  lemma ShippingOptionsInOrder(options: seq<string>)
    requires |options| >= 2
    ensures FormatShippingOptions(Some(options)) ==
      ShippingLabel(options[0]) + ", " + FormatShippingOptions(Some(options[1..]))
  {
    var labels := Lists.Map(options, ShippingLabel);
    assert labels[1..] == Lists.Map(options[1..], ShippingLabel);
  }

  const NoDescription: string := "<p>No description provided.</p>"

  predicate NotBlank(line: string) {
    Trim(line) != []
  }

  /** The paragraphs of a description: its lines, in order, without the blank ones. */
  function Paragraphs(description: string): (r: seq<string>)
    ensures forall k :: 0 <= k < |r| ==> NotBlank(r[k]) && r[k] in Split(description, '\n')
    ensures forall k :: 0 <= k < |r| ==> '\n' !in r[k]
  {
    Lists.Filter(Split(description, '\n'), NotBlank)
  }

  function Wrap(p: string): string {
    "<p>" + p + "</p>"
  }

  /** `formatDescription`: the default paragraph for an empty description, else one paragraph per non-blank line. */
  function FormatDescription(description: Option<string>): (r: string)
    ensures description.None? || description.value == [] ==> r == NoDescription
  {
    if description.None? || description.value == [] then NoDescription
    else Join(Lists.Map(Paragraphs(description.value), Wrap), "")
  }

  /**
   * A description made of lines joined by newlines has those lines as its
   * paragraphs, in order, without the blank ones; each becomes one `<p>`.
   */
  lemma ParagraphsOfLines(lines: seq<string>)
    requires |lines| >= 1 && forall k :: 0 <= k < |lines| ==> '\n' !in lines[k]
    ensures Paragraphs(Join(lines, "\n")) == Lists.Filter(lines, NotBlank)
    ensures Join(lines, "\n") != [] ==>
      FormatDescription(Some(Join(lines, "\n"))) == Join(Lists.Map(Lists.Filter(lines, NotBlank), Wrap), "")
  {
    SplitJoin(lines, '\n');
  }

  /** A one-line description that is not blank becomes exactly one paragraph holding it. */
  lemma OneLineOneParagraph(line: string)
    requires '\n' !in line && NotBlank(line)
    ensures Paragraphs(line) == [line]
    ensures FormatDescription(Some(line)) == Wrap(line)
  {
    SplitPrefix(line, [], '\n');
    assert Split(line, '\n') == [line];
    assert Lists.Filter([line], NotBlank) == [line] + Lists.Filter([line][1..], NotBlank);
    assert line != [] by { assert Trim(line) != []; }
  }

  /** The first character of each space-separated part (empty parts give nothing). */
  function FirstChars(parts: seq<string>): (r: string)
    ensures |r| <= |parts|
    ensures (forall k :: 0 <= k < |parts| ==> parts[k] != []) ==>
      |r| == |parts| && forall k :: 0 <= k < |parts| ==> r[k] == parts[k][0]
  {
    if parts == [] then []
    else (if parts[0] == [] then [] else [parts[0][0]]) + FirstChars(parts[1..])
  }

  /** `getInitials`: '??' for an empty name; else the parts' first characters, upper-cased, at most two. */
  function Initials(name: string): (r: string)
    ensures name == [] ==> r == "??"
    ensures name != [] ==> |r| <= 2
    ensures name != [] && name[0] != ' ' ==> r != [] && r[0] == UpperChar(name[0])
    ensures var parts := Split(name, ' ');
      name != [] && (forall k :: 0 <= k < |parts| ==> parts[k] != []) ==>
        |r| == (if |parts| < 2 then |parts| else 2) && forall k :: 0 <= k < |r| ==> r[k] == UpperChar(parts[k][0])
  {
    if name == [] then "??"
    else
      var all := Upper(FirstChars(Split(name, ' ')));
      assert name[0] != ' ' ==> all != [] && all[0] == UpperChar(name[0]) by {
        if name[0] != ' ' { FirstPartStarts(name); }
      }
      if |all| <= 2 then all else all[..2]
  }

  /** The first part of a name that does not start with a space starts with the name's first character. */
  lemma FirstPartStarts(name: string)
    requires name != [] && name[0] != ' '
    ensures var parts := Split(name, ' '); parts[0] != [] && parts[0][0] == name[0]
  {
  }
}

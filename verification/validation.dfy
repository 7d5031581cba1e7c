/**
 The check run on the admission form before a save. Four independent
 rules, each contributing at most one message, all failures collected in
 rule order; the form is valid exactly when no message was produced.
 */
module Validation {
  import opened Text
  import opened Seqs
  import opened Records

  /** The four rules, in the order the form is checked. */
  datatype Rule = NameRule | PhoneRule | RollRule | ClassRule

  /** The message each broken rule adds to the error list. */
  function Message(r: Rule): string {
    match r
    case NameRule => "Name must be alphanumeric."
    case PhoneRule => "Primary Phone must be 10 digits."
    case RollRule => "Roll Number is required."
    case ClassRule => "Class is required."
  }

  function Position(r: Rule): nat {
    match r
    case NameRule => 0
    case PhoneRule => 1
    case RollRule => 2
    case ClassRule => 3
  }

  /** Different rules report different texts, so a message identifies its
      rule. */
  lemma MessageInjective(a: Rule, b: Rule)
    ensures Message(a) == Message(b) ==> a == b
  {
    if Message(a) == Message(b) {
      assert Message(a)[0] == Message(b)[0];
    }
  }

  /** The character class `[a-zA-Z0-9 .]`. */
  predicate IsNameChar(c: char) {
    ('a' <= c <= 'z') || ('A' <= c <= 'Z') || IsDigit(c) || c == ' ' || c == '.'
  }

  /** `/^[a-zA-Z0-9 .]+$/`, on the name exactly as typed: at least one
      character, and removing every character outside the class removes
      nothing. */
  predicate NameOk(name: string): (b: bool)
    ensures b <==> name != [] && Filter(name, IsNameChar) == name
  {
    FilterUnchangedIff(name, IsNameChar);
    |name| > 0 && forall i :: 0 <= i < |name| ==> IsNameChar(name[i])
  }

  /** `/^\d{10}$/`: ten characters, and removing the non-digits removes
      nothing. */
  predicate PhoneOk(phone: string): (b: bool)
    ensures b <==> |phone| == 10 && Filter(phone, IsDigit) == phone
  {
    FilterUnchangedIff(phone, IsDigit);
    |phone| == 10 && forall i :: 0 <= i < |phone| ==> IsDigit(phone[i])
  }

  predicate RollOk(rollNo: string) {
    rollNo != ""
  }

  predicate ClassOk(className: string) {
    className != ""
  }

  predicate Holds(r: Rule, c: Student) {
    match r
    case NameRule => NameOk(c.name)
    case PhoneRule => PhoneOk(c.phone)
    case RollRule => RollOk(c.rollNo)
    case ClassRule => ClassOk(c.className)
  }

  /** A form that satisfies every rule. */
  predicate Acceptable(c: Student) {
    forall r: Rule :: Holds(r, c)
  }

  /** The rule checked at a given position. */
  function RuleAt(p: nat): (r: Rule)
    requires p < 4
    ensures Position(r) == p
  {
    if p == 0 then NameRule else if p == 1 then PhoneRule else if p == 2 then RollRule else ClassRule
  }

  /** The rules from position `p` on that the form breaks, in checking
      order. */
  function BrokenFrom(c: Student, p: nat): (b: seq<Rule>)
    requires p <= 4
    ensures |b| <= 4 - p
    ensures forall r: Rule :: r in b <==> p <= Position(r) && !Holds(r, c)
    ensures forall i :: 0 <= i < |b| ==> p <= Position(b[i])
    ensures forall i, j :: 0 <= i < j < |b| ==> Position(b[i]) < Position(b[j])
    decreases 4 - p
  {
    if p == 4 then []
    else
      var rest := BrokenFrom(c, p + 1);
      var r := RuleAt(p);
      OnlyRuleAt(p);
      if Holds(r, c) then rest
      else
        var b := [r] + rest;
        assert forall i :: 0 < i < |b| ==> b[i] == rest[i - 1];
        b
  }

  lemma OnlyRuleAt(p: nat)
    requires p < 4
    ensures forall q: Rule :: Position(q) == p ==> q == RuleAt(p)
  {
  }

  /** The rules the form breaks, in checking order. */
  function Broken(c: Student): (b: seq<Rule>)
    ensures |b| <= 4
    ensures forall r: Rule :: r in b <==> !Holds(r, c)
    ensures forall i, j :: 0 <= i < j < |b| ==> Position(b[i]) < Position(b[j])
  {
    BrokenFrom(c, 0)
  }

  datatype Verdict = Verdict(valid: bool, errors: seq<string>)

  /** The message list for a list of broken rules, one per rule. */
  function Messages(b: seq<Rule>): (m: seq<string>)
    ensures |m| == |b|
    ensures forall i :: 0 <= i < |b| ==> m[i] == Message(b[i])
  {
    seq(|b|, i requires 0 <= i < |b| => Message(b[i]))
  }

  /** A rule's message is listed exactly when the rule is. */
  lemma MessagesMembers(b: seq<Rule>)
    ensures forall r: Rule :: Message(r) in Messages(b) <==> r in b
  {
    var m := Messages(b);
    forall r: Rule
      ensures Message(r) in m <==> r in b
    {
      if Message(r) in m {
        var i :| 0 <= i < |m| && m[i] == Message(r);
        MessageInjective(r, b[i]);
      }
      if r in b {
        var i :| 0 <= i < |b| && b[i] == r;
        assert m[i] == Message(r);
      }
    }
  }

  /** A form is acceptable exactly when it breaks no rule. */
  lemma AcceptableIffNoneBroken(c: Student)
    ensures Acceptable(c) <==> Broken(c) == []
  {
    var b := Broken(c);
    if b != [] {
      assert !Holds(b[0], c);
    }
    if !Acceptable(c) {
      var r: Rule :| !Holds(r, c);
      assert r in b;
    }
  }

  /** `validateStudent`: runs every rule on the form, which is left as it
      was, and lists one message per broken rule. */
  function Validate(c: Student): (v: Verdict)
    ensures v.valid <==> v.errors == []
    ensures v.valid <==> Acceptable(c)
    ensures |v.errors| == |Broken(c)| <= 4
    ensures forall i :: 0 <= i < |v.errors| ==> v.errors[i] == Message(Broken(c)[i])
    ensures forall r: Rule :: Message(r) in v.errors <==> !Holds(r, c)
  {
    var b := Broken(c);
    MessagesMembers(b);
    AcceptableIffNoneBroken(c);
    Verdict(|b| == 0, Messages(b))
  }

  /** The name rule on its own: the name as typed must be non-empty and
      use only letters, digits, spaces and dots. */
  lemma NameRuleExact(c: Student)
    ensures Message(NameRule) in Validate(c).errors
            <==> (c.name == "" || exists i :: 0 <= i < |c.name| && !IsNameChar(c.name[i]))
  {
  }

  /** The phone rule on its own: a 10-character all-digit phone never draws
      the phone message, and anything else always does. */
  lemma PhoneRuleExact(c: Student)
    ensures Message(PhoneRule) in Validate(c).errors
            <==> (|c.phone| != 10 || exists i :: 0 <= i < |c.phone| && !IsDigit(c.phone[i]))
  {
  }

  /** No message is listed twice. */
  lemma ErrorsDistinct(c: Student, i: int, j: int)
    requires 0 <= i < j < |Validate(c).errors|
    ensures Validate(c).errors[i] != Validate(c).errors[j]
  {
    MessageInjective(Broken(c)[i], Broken(c)[j]);
  }

  /** With the phone and class already in order, the verdict depends on
      the name and the roll number alone. */
  lemma VerdictOnNameAndRoll(c: Student)
    requires PhoneOk(c.phone) && ClassOk(c.className)
    ensures Validate(c).valid <==> NameOk(c.name) && RollOk(c.rollNo)
  {
    if NameOk(c.name) && RollOk(c.rollNo) {
      assert forall r: Rule :: Holds(r, c);
    } else if !NameOk(c.name) {
      assert !Holds(NameRule, c);
    } else {
      assert !Holds(RollRule, c);
    }
  }
}

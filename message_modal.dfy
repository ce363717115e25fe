/**
 * The message form: a stored message template filled in for a customer by
 * replacing its placeholders, and the list of templates read back from the
 * browser's storage.
 */
module MessageModal {
  import opened Text
  import opened JsValues

  /** One `replace(/{{name}}/g, value)` of the chain: a placeholder and its text. */
  datatype Substitution = Substitution(placeholder: string, text: string)

  /** `v || ""` as the text a placeholder is replaced by; a missing value becomes empty. */
  function Substitute(v: Value): (t: string)
    ensures !Truthy(v) ==> t == ""
    ensures Truthy(v) && v.Str? ==> t == v.s
  {
    ToText(Or(v, Str("")))
  }

  /** `customer.latestOrder?.f || ""` */
  function LatestOrderText(customer: Value, f: string): string {
    Substitute(Field(Field(customer, "latestOrder"), f))
  }

  /** The five replacements, in the order they are applied; `today` is `new Date().toLocaleDateString()`. */
  function Substitutions(customer: Value, today: string): (subs: seq<Substitution>)
    ensures |subs| == 5
    ensures forall j :: 0 <= j < 5 ==> subs[j].placeholder != [] && subs[j].placeholder[0] == '{'
  {
    [Substitution("{{customer_name}}", Substitute(Field(customer, "name"))),
     Substitution("{{order_id}}", LatestOrderText(customer, "orderId")),
     Substitution("{{price}}", LatestOrderText(customer, "price")),
     Substitution("{{date}}", Substitute(Str(today))),
     Substitution("{{amount}}", LatestOrderText(customer, "amount"))]
  }

  /** The replacements applied one after the other, each to the result of the one before. */
  function ReplaceEach(s: string, subs: seq<Substitution>): string
    requires forall j :: 0 <= j < |subs| ==> subs[j].placeholder != []
    decreases |subs|
  {
    if subs == [] then s
    else ReplaceEach(ReplaceAll(s, subs[0].placeholder, subs[0].text), subs[1..])
  }

  /** `handleTemplateSelect`: with a customer the placeholders are filled in; without one the template is kept as it is. */
  function FillTemplate(template: string, customer: Value, today: string): (message: string)
    ensures !Truthy(customer) ==> message == template
  {
    if Truthy(customer) then ReplaceEach(template, Substitutions(customer, today)) else template
  }

  /** Replacements whose placeholders do not occur leave the text alone, up to the `n`-th. */
  lemma {:induction false} ReplaceEachSkip(s: string, subs: seq<Substitution>, n: nat)
    requires forall j :: 0 <= j < |subs| ==> subs[j].placeholder != []
    requires n <= |subs|
    requires forall j, i :: 0 <= j < n ==> !OccursAt(s, subs[j].placeholder, i)
    ensures ReplaceEach(s, subs) == ReplaceEach(s, subs[n..])
    decreases n
  {
    if n > 0 {
      ReplaceAllAbsent(s, subs[0].placeholder, subs[0].text);
      assert subs[1..][n - 1..] == subs[n..];
      ReplaceEachSkip(s, subs[1..], n - 1);
    }
  }

  /** Text without `{` is left alone by replacements whose placeholders all start with `{`. */
  lemma {:induction false} ReplaceEachNoBrace(s: string, subs: seq<Substitution>)
    requires forall j :: 0 <= j < |subs| ==> subs[j].placeholder != [] && subs[j].placeholder[0] == '{'
    requires '{' !in s
    ensures ReplaceEach(s, subs) == s
    decreases |subs|
  {
    if subs != [] {
      FirstCharAbsent(s, subs[0].placeholder, subs[0].text);
      ReplaceEachNoBrace(s, subs[1..]);
    }
  }

  /**
   * Pieces without `{` joined by the `k`-th placeholder come out joined by
   * its text, when no earlier placeholder occurs and no text brings in a `{`.
   */
  lemma ReplaceEachJoin(pieces: seq<string>, subs: seq<Substitution>, k: nat)
    requires forall j :: 0 <= j < |subs| ==> subs[j].placeholder != [] && subs[j].placeholder[0] == '{'
    requires k < |subs|
    requires forall i :: 0 <= i < |pieces| ==> '{' !in pieces[i]
    requires '{' !in subs[k].text
    requires forall j, i :: 0 <= j < k ==> !OccursAt(Join(pieces, subs[k].placeholder), subs[j].placeholder, i)
    ensures ReplaceEach(Join(pieces, subs[k].placeholder), subs) == Join(pieces, subs[k].text)
  {
    var sub := subs[k];
    var template := Join(pieces, sub.placeholder);
    ReplaceEachSkip(template, subs, k);
    assert subs[k..][0] == sub && subs[k..][1..] == subs[k + 1..];
    forall i | 0 <= i < |pieces| ensures Separated(pieces[i], sub.placeholder) {
      SeparatedByFirst(pieces[i], sub.placeholder);
    }
    ReplaceAllJoin(pieces, sub.placeholder, sub.text);
    JoinAvoids(pieces, sub.text, '{');
    ReplaceEachNoBrace(Join(pieces, sub.text), subs[k + 1..]);
  }

  /**
   * Every occurrence of a placeholder is filled in, not only the first: a
   * template made of brace-free pieces joined by the `k`-th placeholder (and
   * holding none of the placeholders replaced before it) comes out as the
   * same pieces joined by that placeholder's text, when the text brings in
   * no brace of its own.
   */
  lemma FillsEveryOccurrence(pieces: seq<string>, customer: Value, today: string, k: nat)
    requires Truthy(customer) && k < 5
    requires forall i :: 0 <= i < |pieces| ==> '{' !in pieces[i]
    requires '{' !in Substitutions(customer, today)[k].text
    requires forall j, i :: 0 <= j < k ==>
      !OccursAt(Join(pieces, Substitutions(customer, today)[k].placeholder), Substitutions(customer, today)[j].placeholder, i)
    ensures FillTemplate(Join(pieces, Substitutions(customer, today)[k].placeholder), customer, today)
      == Join(pieces, Substitutions(customer, today)[k].text)
  {
    ReplaceEachJoin(pieces, Substitutions(customer, today), k);
  }

  /** A template without placeholders is sent as it is, with or without a customer. */
  lemma NoBraceUnchanged(template: string, customer: Value, today: string)
    requires '{' !in template
    ensures FillTemplate(template, customer, today) == template
  {
    if Truthy(customer) {
      ReplaceEachNoBrace(template, Substitutions(customer, today));
    }
  }

  /** `localStorage.getItem('messageTemplates')`: nothing (or empty text), text that is not JSON, or the parsed value. */
  datatype Stored = Missing | Unparsable | Parsed(value: Value)

  /** `loadTemplates`: the stored list when it parses to an array, and an empty list in every other case. */
  function LoadTemplates(stored: Stored): (templates: seq<Value>)
    ensures stored.Parsed? && stored.value.List? ==> templates == stored.value.items
    ensures !(stored.Parsed? && stored.value.List?) ==> templates == []
  {
    match stored
    case Parsed(List(items)) => items
    case _ => []
  }
}

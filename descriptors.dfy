/**
 * Read-only protobuf descriptor trees, as the rule sees them through
 * protoreflect: a message has a short name, a fully-qualified name, its
 * fields and its nested messages, both in declaration order; a field has a
 * number and a fully-qualified name. `options` stands for the descriptor's
 * serialized options, which is where the constraint resolver finds the rules.
 * Two messages with the same short name and the same content nested in
 * different parents are told apart by their fully-qualified names.
 */
module Descriptors {
  import opened Wrappers

  type byte = bv8

  datatype Field = Field(number: int, fullName: string, options: seq<byte>)

  datatype Message = Message(name: string, fullName: string, options: seq<byte>, fields: seq<Field>, nested: seq<Message>)

  /** A file descriptor, reduced to its top-level messages. */
  datatype File = File(messages: seq<Message>)

  /** Sibling messages have distinct names. */
  predicate UniqueNames(ms: seq<Message>)
  {
    forall i, j :: 0 <= i < j < |ms| ==> ms[i].name != ms[j].name
  }

  /** The fields of one message have distinct numbers. */
  predicate UniqueNumbers(fs: seq<Field>)
  {
    forall i, j :: 0 <= i < j < |fs| ==> fs[i].number != fs[j].number
  }

  /** A sequence of names in which no name occurs twice. */
  predicate NoDuplicates(names: seq<string>)
  {
    forall i, j :: 0 <= i < j < |names| ==> names[i] != names[j]
  }

  /** The full names of fields, in declaration order. */
  function FieldNames(fs: seq<Field>): seq<string>
  {
    seq(|fs|, k requires 0 <= k < |fs| => fs[k].fullName)
  }

  /** The full names declared by messages ms and by all their fields and nested messages, in pre-order. */
  function TreeNames(ms: seq<Message>): seq<string>
    decreases ms
  {
    if ms == [] then [] else SubtreeNames(ms[0]) + TreeNames(ms[1..])
  }

  /** The full names declared by message m: its own, its fields', then those beneath its nested messages. */
  function SubtreeNames(m: Message): seq<string>
    decreases m
  {
    [m.fullName] + FieldNames(m.fields) + TreeNames(m.nested)
  }

  /** Every message and field of the tree has its own full name. */
  predicate DistinctFullNames(ms: seq<Message>)
  {
    NoDuplicates(TreeNames(ms))
  }

  /**
   * The guarantees of a compiled file that the walk relies on: sibling
   * messages have distinct names, a message's fields have distinct numbers,
   * and full names are distinct across the whole tree.
   */
  predicate WellFormed(ms: seq<Message>)
  {
    && UniqueNames(ms)
    && DistinctFullNames(ms)
    && forall m :: m in ms ==> UniqueNumbers(m.fields) && WellFormed(m.nested)
  }

  /** Splitting a repetition-free sequence gives two repetition-free halves with no name in common. */
  lemma NoDuplicatesSplit(s1: seq<string>, s2: seq<string>)
    requires NoDuplicates(s1 + s2)
    ensures NoDuplicates(s1) && NoDuplicates(s2)
    ensures forall x :: x in s1 ==> x !in s2
  {
    assert forall i :: 0 <= i < |s1| ==> (s1 + s2)[i] == s1[i];
    assert forall j :: 0 <= j < |s2| ==> (s1 + s2)[|s1| + j] == s2[j];
  }

  /** MessageDescriptors.ByName: the message of that name, or nil. */
  function ByName(ms: seq<Message>, name: string): (r: Option<Message>)
    ensures r.None? <==> forall m :: m in ms ==> m.name != name
    ensures r.Some? ==> r.value in ms && r.value.name == name
  {
    if ms == [] then None
    else if ms[0].name == name then Some(ms[0])
    else
      assert forall m :: m in ms ==> m == ms[0] || m in ms[1..];
      ByName(ms[1..], name)
  }

  /** FieldDescriptors.ByNumber: the field with that number, or nil. */
  function ByNumber(fs: seq<Field>, number: int): (r: Option<Field>)
    ensures r.None? <==> forall f :: f in fs ==> f.number != number
    ensures r.Some? ==> r.value in fs && r.value.number == number
  {
    if fs == [] then None
    else if fs[0].number == number then Some(fs[0])
    else
      assert forall f :: f in fs ==> f == fs[0] || f in fs[1..];
      ByNumber(fs[1..], number)
  }

  /** Among uniquely named siblings, looking a member up by its own name finds it. */
  lemma ByNameFindsSibling(ms: seq<Message>, m: Message)
    requires UniqueNames(ms) && m in ms
    ensures ByName(ms, m.name) == Some(m)
  {
  }

  /** Among uniquely numbered fields, looking a field up by its own number finds it. */
  lemma ByNumberFindsField(fs: seq<Field>, f: Field)
    requires UniqueNumbers(fs) && f in fs
    ensures ByNumber(fs, f.number) == Some(f)
  {
  }
}

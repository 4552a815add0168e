/**
 * The PROTOVALIDATE_STRICT comparison as specification functions.
 *
 * A run of the walk appends annotations to the response writer and ends
 * either normally or with the first resolution error; `Run` records both.
 * `Then` sequences two parts of the walk the way the Go code's early
 * `return err` does: once the first part has failed, the second never runs.
 */
module Walk {
  import opened Wrappers
  import opened Descriptors

  /** Which of the two diagnostics an annotation is. */
  datatype Kind = MessageRulesChanged | FieldRulesChanged

  datatype Descriptor = MessageDescriptor(message: Message) | FieldDescriptor(field: Field)

  /**
   * One diagnostic: its kind, the name quoted in its text (the message's
   * short name or the field's full name), and the current and against
   * descriptors it is attached to.
   */
  datatype Annotation = Annotation(kind: Kind, name: string, descriptor: Descriptor, againstDescriptor: Descriptor)

  /**
   * The foreign collaborators: protovalidate.ResolveMessageRules,
   * protovalidate.ResolveFieldRules and "cmp.Diff with protocmp.Transform()
   * is not empty". Being functions, they are deterministic.
   */
  datatype Resolver<!R, E> = Resolver(
    messageRules: Message -> Result<R, E>,
    fieldRules: Field -> Result<R, E>,
    differs: (R, R) -> bool)

  datatype Run<E> = Run(annotations: seq<Annotation>, error: Option<E>)

  function Done<E>(): Run<E> { Run([], None) }

  function Fail<E>(e: E): Run<E> { Run([], Some(e)) }

  function Then<E>(first: Run<E>, second: Run<E>): Run<E>
  {
    if first.error.Some? then first else Run(first.annotations + second.annotations, second.error)
  }

  function MessageAnnotation(m: Message, am: Message): Annotation
  {
    Annotation(MessageRulesChanged, m.name, MessageDescriptor(m), MessageDescriptor(am))
  }

  function FieldAnnotation(f: Field, af: Field): Annotation
  {
    Annotation(FieldRulesChanged, f.fullName, FieldDescriptor(f), FieldDescriptor(af))
  }

  /** Both sides resolve and the resolved rule sets differ. */
  predicate Changed<R, E>(o: Resolver<R, E>, current: Result<R, E>, against: Result<R, E>)
  {
    current.Success? && against.Success? && o.differs(current.value, against.value)
  }

  /** Both sides resolve and the resolved rule sets are equal. */
  predicate Unchanged<R, E>(o: Resolver<R, E>, current: Result<R, E>, against: Result<R, E>)
  {
    current.Success? && against.Success? && !o.differs(current.value, against.value)
  }

  /** Resolve current then against; annotate once if they differ. */
  function RulesCheck<R, E>(o: Resolver<R, E>, current: Result<R, E>, against: Result<R, E>, a: Annotation): Run<E>
  {
    match current
    case Failure(e) => Fail(e)
    case Success(r) =>
      match against
      case Failure(e) => Fail(e)
      case Success(ar) => if o.differs(r, ar) then Run([a], None) else Done()
  }

  /** One iteration of compareProtovalidateFieldRules' loop. */
  function FieldEntry<R, E>(o: Resolver<R, E>, f: Field, againstFields: seq<Field>): Run<E>
  {
    match ByNumber(againstFields, f.number)
    case None => Done()
    case Some(af) => RulesCheck(o, o.fieldRules(f), o.fieldRules(af), FieldAnnotation(f, af))
  }

  /** compareProtovalidateFieldRules. */
  function FieldsWalk<R, E>(o: Resolver<R, E>, fields: seq<Field>, againstFields: seq<Field>): Run<E>
  {
    if fields == [] then Done()
    else Then(FieldEntry(o, fields[0], againstFields), FieldsWalk(o, fields[1..], againstFields))
  }

  /** compareProtovalidateMessageRules: the message's own rules, then its fields. */
  function PairCheck<R, E>(o: Resolver<R, E>, m: Message, am: Message): Run<E>
  {
    Then(RulesCheck(o, o.messageRules(m), o.messageRules(am), MessageAnnotation(m, am)),
         FieldsWalk(o, m.fields, am.fields))
  }

  /** One iteration of compareProtovalidateRules' loop: pair by name, compare, recurse. */
  function MessageEntry<R, E>(o: Resolver<R, E>, m: Message, againstMessages: seq<Message>): Run<E>
    decreases m
  {
    match ByName(againstMessages, m.name)
    case None => Done()
    case Some(am) => Then(PairCheck(o, m, am), MessagesWalk(o, m.nested, am.nested))
  }

  /** compareProtovalidateRules. */
  function MessagesWalk<R, E>(o: Resolver<R, E>, messages: seq<Message>, againstMessages: seq<Message>): Run<E>
    decreases messages
  {
    if messages == [] then Done()
    else Then(MessageEntry(o, messages[0], againstMessages), MessagesWalk(o, messages[1..], againstMessages))
  }

  /** handleProtovalidateStrict: the walk over the two files' top-level messages. */
  function StrictCheck<R, E>(o: Resolver<R, E>, file: File, againstFile: File): Run<E>
  {
    MessagesWalk(o, file.messages, againstFile.messages)
  }

  /**
   * Every paired message of the two trees, in the order the walk visits
   * them: each current message with its same-named against sibling,
   * followed by the pairs beneath it, then its later siblings.
   */
  function PairsOf(messages: seq<Message>, againstMessages: seq<Message>): seq<(Message, Message)>
    decreases messages
  {
    if messages == [] then []
    else
      var head := match ByName(againstMessages, messages[0].name)
        case None => []
        case Some(am) => [(messages[0], am)] + PairsOf(messages[0].nested, am.nested);
      head + PairsOf(messages[1..], againstMessages)
  }

  /** Runs one after another, stopping at the first that fails. */
  function Sequence<E>(runs: seq<Run<E>>): Run<E>
  {
    if runs == [] then Done() else Then(runs[0], Sequence(runs[1..]))
  }

  /** The comparison of each listed pair on its own. */
  function PairRuns<R, E>(o: Resolver<R, E>, pairs: seq<(Message, Message)>): (runs: seq<Run<E>>)
    ensures |runs| == |pairs|
  {
    if pairs == [] then [] else [PairCheck(o, pairs[0].0, pairs[0].1)] + PairRuns(o, pairs[1..])
  }

  /** The walk flattened: compare the listed pairs one after another, stopping at the first error. */
  function FoldPairs<R, E>(o: Resolver<R, E>, pairs: seq<(Message, Message)>): Run<E>
  {
    Sequence(PairRuns(o, pairs))
  }
}

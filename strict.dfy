/**
 * The PROTOVALIDATE_STRICT handler as the Go code runs it: index loops with
 * `continue` and early returns, appending to a shared response writer. Each
 * method is proved to do exactly what its specification function in module
 * Walk describes; the properties of those functions are proved in
 * FieldProperties, MessageProperties and StrictProperties.
 */
module Strict {
  import opened Wrappers
  import opened Descriptors
  import opened Walk
  import FieldProperties
  import MessageProperties

  /** The host's check.ResponseWriter, reduced to the annotations it has accumulated. */
  class ResponseWriter {
    var annotations: seq<Annotation>

    constructor ()
      ensures annotations == []
    {
      annotations := [];
    }

    /** AddAnnotation: append one annotation; earlier ones are never changed or removed. */
    method AddAnnotation(a: Annotation)
      modifies this
      ensures annotations == old(annotations) + [a]
    {
      annotations := annotations + [a];
    }
  }

  /** compareProtovalidateFieldRules: returns the first resolution error, if any. */
  method CompareFieldRules<R, E>(w: ResponseWriter, o: Resolver<R, E>, fields: seq<Field>, againstFields: seq<Field>)
    returns (err: Option<E>)
    modifies w
    ensures w.annotations == old(w.annotations) + FieldsWalk(o, fields, againstFields).annotations
    ensures err == FieldsWalk(o, fields, againstFields).error
  {
    var i := 0;
    while i < |fields|
      invariant 0 <= i <= |fields|
      invariant FieldsWalk(o, fields[..i], againstFields).error.None?
      invariant w.annotations == old(w.annotations) + FieldsWalk(o, fields[..i], againstFields).annotations
    {
      var field := fields[i];
      FieldProperties.FieldsWalkStep(o, fields, i, againstFields);
      var found := ByNumber(againstFields, field.number);
      if found.None? {
        i := i + 1;
        continue;
      }
      var againstField := found.value;
      var fieldRules := o.fieldRules(field);
      if fieldRules.Failure? {
        FieldProperties.FieldsWalkStopsAt(o, fields, i, againstFields);
        return Some(fieldRules.error);
      }
      var againstFieldRules := o.fieldRules(againstField);
      if againstFieldRules.Failure? {
        FieldProperties.FieldsWalkStopsAt(o, fields, i, againstFields);
        return Some(againstFieldRules.error);
      }
      if o.differs(fieldRules.value, againstFieldRules.value) {
        w.AddAnnotation(FieldAnnotation(field, againstField));
      }
      i := i + 1;
    }
    assert fields[..|fields|] == fields;
    return None;
  }

  /** compareProtovalidateMessageRules: the message's own rules, then always its fields. */
  method CompareMessageRules<R, E>(w: ResponseWriter, o: Resolver<R, E>, message: Message, againstMessage: Message)
    returns (err: Option<E>)
    modifies w
    ensures w.annotations == old(w.annotations) + PairCheck(o, message, againstMessage).annotations
    ensures err == PairCheck(o, message, againstMessage).error
  {
    var messageRules := o.messageRules(message);
    if messageRules.Failure? {
      return Some(messageRules.error);
    }
    var againstMessageRules := o.messageRules(againstMessage);
    if againstMessageRules.Failure? {
      return Some(againstMessageRules.error);
    }
    if o.differs(messageRules.value, againstMessageRules.value) {
      w.AddAnnotation(MessageAnnotation(message, againstMessage));
    }
    err := CompareFieldRules(w, o, message.fields, againstMessage.fields);
  }

  /** compareProtovalidateRules: the loop over the current messages in declaration order. */
  method CompareRules<R, E>(w: ResponseWriter, o: Resolver<R, E>, messages: seq<Message>, againstMessages: seq<Message>)
    returns (err: Option<E>)
    modifies w
    ensures w.annotations == old(w.annotations) + MessagesWalk(o, messages, againstMessages).annotations
    ensures err == MessagesWalk(o, messages, againstMessages).error
    decreases messages
  {
    for i := 0 to |messages|
      invariant MessagesWalk(o, messages[..i], againstMessages).error.None?
      invariant w.annotations == old(w.annotations) + MessagesWalk(o, messages[..i], againstMessages).annotations
    {
      err := CompareMessage(w, o, messages[i], againstMessages);
      MessageProperties.MessagesLoopStep(o, messages, i, againstMessages, old(w.annotations), w.annotations);
      if err.Some? {
        return;
      }
    }
    assert messages[..|messages|] == messages;
    return None;
  }

  /**
   * One iteration of compareProtovalidateRules' loop: look the message up by
   * name (skipping it when absent), compare the pair, then recurse into the
   * nested messages of both.
   */
  method CompareMessage<R, E>(w: ResponseWriter, o: Resolver<R, E>, message: Message, againstMessages: seq<Message>)
    returns (err: Option<E>)
    modifies w
    ensures w.annotations == old(w.annotations) + MessageEntry(o, message, againstMessages).annotations
    ensures err == MessageEntry(o, message, againstMessages).error
    decreases message
  {
    var found := ByName(againstMessages, message.name);
    if found.None? {
      return None;
    }
    var againstMessage := found.value;
    ghost var pair := PairCheck(o, message, againstMessage);
    assert MessageEntry(o, message, againstMessages) == Then(pair, MessagesWalk(o, message.nested, againstMessage.nested));
    err := CompareMessageRules(w, o, message, againstMessage);
    if err.Some? {
      return;
    }
    err := CompareRules(w, o, message.nested, againstMessage.nested);
    assert w.annotations == old(w.annotations) + (pair.annotations + MessagesWalk(o, message.nested, againstMessage.nested).annotations);
  }

  /** handleProtovalidateStrict: compare the top-level messages of the file pair. */
  method HandleStrict<R, E>(w: ResponseWriter, o: Resolver<R, E>, file: File, againstFile: File)
    returns (err: Option<E>)
    modifies w
    ensures w.annotations == old(w.annotations) + StrictCheck(o, file, againstFile).annotations
    ensures err == StrictCheck(o, file, againstFile).error
  {
    err := CompareRules(w, o, file.messages, againstFile.messages);
  }
}

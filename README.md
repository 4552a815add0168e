# PROTOVALIDATE_STRICT, modelled in Dafny

This project models the core of the `PROTOVALIDATE_STRICT` breaking-change rule of a buf check plugin. The rule walks each current file's messages in declaration order. It pairs each message with the against file's message of the same name, and each field with the against field of the same number. It resolves the Protovalidate rules of both sides of every pair. When the two resolved rule sets differ, it adds one annotation to the response writer. Nested messages are walked recursively to any depth. A current message or field with no partner is skipped. The first resolution error stops the whole walk and is returned. Annotations already written stay written.

The files:

- `descriptors.dfy` models the descriptors the walk reads. A message has a short name, a fully-qualified name, its serialized options, its fields and its nested messages. A field has a number, a fully-qualified name and its serialized options. The module also has the `ByName` and `ByNumber` lookups and the well-formedness predicates: siblings have distinct names, a message's fields have distinct numbers, and full names are distinct across the whole tree. Full names are what tell apart two equal-looking nested messages of different parents, such as `User.Address` and `Order.Address`.
- `walk.dfy` gives the comparison as specification functions. A `Run` is the annotations a part of the walk appends plus the error it ends with, if any. `Then` sequences two parts the way the Go code's early `return err` does. `MessagesWalk`, `PairCheck`, `FieldsWalk` and `StrictCheck` follow the three Go functions and the handler. `PairsOf` lists every pair of messages the walk compares, in pre-order.
- `strict.dfy` holds the imperative program. `ResponseWriter` is a class whose annotation list `AddAnnotation` extends. `CompareRules`, `CompareMessage`, `CompareMessageRules`, `CompareFieldRules` and `HandleStrict` are methods with the Go loops and early returns. Each is proved to leave the writer, and return the error, that the matching specification function computes.
- `identity.dfy` proves that, across the whole walk, no two annotations are attached to the same current descriptor.
- `runs.dfy`, `fields.dfy`, `messages.dfy` and `theorems.dfy` prove what the rule promises about those functions, and so about the methods: soundness, completeness, fail-fast, silence and order, at every nesting depth.

The three foreign collaborators form one `Resolver` value passed to every member: `protovalidate.ResolveMessageRules`, `protovalidate.ResolveFieldRules`, and "`cmp.Diff(…, protocmp.Transform())` is not empty". A resolver holds total functions from a descriptor to `Result<R, E>`, and one predicate on two rule sets. `R` and `E` are type parameters, so the proofs hold for every resolver and every differ.

## Model

| member | source | states |
|---|---|---|
| Descriptors.ByName | main.go:66 | the lookup finds nothing exactly when no against message has that name; what it finds is an against message with that name |
| Descriptors.ByNumber | main.go:119 | the lookup finds nothing exactly when no against field has that number; what it finds is an against field with that number |
| Descriptors.ByNameFindsSibling | main.go:66 | among siblings with distinct names, looking up a message's own name returns that message |
| Descriptors.ByNumberFindsField | main.go:119 | among fields with distinct numbers, looking up a field's own number returns that field |
| Strict.ResponseWriter.AddAnnotation | main.go:94-107 | adding an annotation appends it to the writer's list and changes nothing else |
| Strict.CompareFieldRules | main.go:112-144 | the loop over the current fields appends exactly the annotations of the field walk and returns its error; it skips fields with no partner of the same number and returns at the first resolution failure |
| Strict.CompareMessageRules | main.go:80-110 | resolving the pair's message rules, annotating a difference, then comparing the fields leaves the writer and the error exactly as the pair check does |
| Strict.CompareRules | main.go:59-78 | the loop over the current messages appends exactly the annotations of the message walk and returns its error, at every depth |
| Strict.CompareMessage | main.go:65-75 | one loop iteration: skipped when no against message has the name, otherwise the pair check and then the recursive walk of both sides' nested messages |
| Strict.HandleStrict | main.go:45-57 | handling a file pair is the message walk over the two files' top-level messages |
| FieldProperties.RulesCheckAnnotatesIffChanged | main.go:85-107 | a rules comparison appends exactly one annotation if both sides resolve and differ, and none otherwise; its error is the first side's resolution failure |
| FieldProperties.FieldsWalkAppend | main.go:117-142 | the field walk over two concatenated lists is the walk over the first list and then, unless it failed, the walk over the second |
| FieldProperties.FieldsWalkStopsAt | main.go:123-130 | once field i fails to resolve, the walk's annotations and error are those of the fields before it plus that field's; later fields are not compared |
| FieldProperties.FieldsWalkSound | main.go:119-141 | every field annotation belongs to a current field whose partner of the same number exists and whose rules changed |
| FieldProperties.FieldsWalkKinds | main.go:133-140 | the field walk only produces field-rules annotations |
| FieldProperties.FieldsWalkComplete | main.go:117-142 | a field walk that ends normally resolved both sides of every paired field and annotated each one whose rules changed |
| FieldProperties.FieldEntryFails | main.go:120-130 | a field fails exactly when it has a partner and one of the two resolutions fails; a failing field appends nothing |
| FieldProperties.FieldsWalkFailFast | main.go:123-130 | a failing field walk stopped at some field: every earlier field succeeded and kept its annotations, that field's resolution failed, and its error is the walk's |
| FieldProperties.FieldsWalkAtMostOnce | main.go:117-142 | with distinct field numbers, no field is annotated twice in one walk |
| FieldProperties.FieldsWalkSilent | main.go:117-143 | when every paired field resolves to equal rules, the field walk appends nothing and succeeds |
| FieldProperties.FieldsWalkByNumberOnly | main.go:119 | the against fields are consulted only through lookup by number: two against lists with the same lookups give the same walk |
| MessageProperties.PairCheckOrder | main.go:80-110 | a message-rules resolution failure returns it with nothing appended; otherwise the message annotation (if the rules changed) comes first, and the field comparison always follows |
| MessageProperties.PairCheckAtMostOneMessageAnnotation | main.go:93-109 | a pair check produces at most one message annotation, as its first annotation, and only when the message rules changed |
| MessageProperties.MessagesWalkAppend | main.go:64-76 | the message walk over two concatenated lists is the walk over the first list and then, unless it failed, the walk over the second |
| MessageProperties.MessagesWalkContinues | main.go:64-76 | while nothing has failed, walking one more message appends exactly that message's annotations |
| MessageProperties.MessagesWalkStopsAt | main.go:70-75 | once message i fails, the walk's outcome is that of the messages before it plus message i's; later messages are not compared |
| MessageProperties.MessagesLoopStep | main.go:64-76 | a loop step leaves the writer at the walk over one more message, or at the whole walk's outcome when that message failed |
| MessageProperties.UnpairedMessageSkipped | main.go:66-69 | a current message with no same-named against message changes nothing: the walk equals the walk without it |
| MessageProperties.MessagesWalkByNameOnly | main.go:66 | the against messages are consulted only through lookup by name: two against lists with the same lookups give the same walk |
| MessageProperties.MessagesWalkIsFoldOfPairs | main.go:59-78 | the recursive walk equals checking the listed pairs one after the other in pre-order, failing fast |
| MessageProperties.PairsMatchByName | main.go:66 | every compared pair has the same name on both sides |
| MessageProperties.TopLevelPairListed | main.go:64-70 | every top-level message with a same-named against message is compared |
| MessageProperties.NestedPairListed | main.go:73 | every nested message of a compared pair whose against side has a same-named nested message is compared too, at any depth |
| MessageProperties.PairsOrigin | main.go:64-75 | nothing else is compared: each pair is a top-level pair by name or a nested pair by name of a compared pair |
| MessageProperties.FoldPairsSound | main.go:59-78 | every annotation of the pair sequence comes from one of its pairs |
| MessageProperties.FoldPairsComplete | main.go:59-78 | a pair sequence that ends normally succeeded on every pair and kept all of their annotations |
| MessageProperties.FoldPairsFailFast | main.go:70-75 | a failing pair sequence stopped at some pair, with the earlier pairs' annotations followed by that pair's |
| MessageProperties.FoldPairsSilent | main.go:77 | when every pair is silent and succeeds, so does the sequence |
| RunProperties.SequenceAppend | main.go:70-75 | sequencing two lists of steps is sequencing the first, then the second |
| RunProperties.SequenceSound | main.go:70-75 | every annotation of a sequence comes from one of its steps |
| RunProperties.SequenceComplete | main.go:70-77 | a sequence that ends normally had every step end normally and kept every step's annotations |
| RunProperties.SequenceFailFast | main.go:70-75 | a failing sequence stopped at its first failing step, keeping the earlier steps' annotations and that step's |
| RunProperties.SequenceSilent | main.go:77 | a sequence of silent successful steps is silent and succeeds |
| StrictProperties.PairCheckSound | main.go:80-110 | each annotation of a pair check is the pair's message diagnostic with changed rules, or the diagnostic of a paired field with changed rules |
| StrictProperties.WalkSound | main.go:59-144 | no false positives: every annotation of the walk reports a compared pair, or a paired field of one, whose rules changed |
| StrictProperties.WalkComplete | main.go:59-144 | no false negatives: a walk that ends normally resolved every compared pair and paired field and annotated each one whose rules changed, at any depth |
| StrictProperties.WalkFailFast | main.go:59-144 | a failing walk stopped at some compared pair: earlier pairs succeeded; that pair failed at its message rules with nothing appended, or at one of its fields; nothing later was compared |
| StrictProperties.PairCheckSilent | main.go:80-144 | a pair whose message and paired field rules are all unchanged appends nothing and succeeds |
| StrictProperties.WalkSilentWhenUnchanged | main.go:59-144 | when nothing compared has changed, the whole walk appends nothing and succeeds |
| StrictProperties.PairsOfSelf | main.go:64-75 | comparing a well-formed message list against itself pairs every message with itself |
| AnnotationIdentity.FieldsWalkNamesWithin | main.go:117-142 | when a message's field full names are distinct, the field walk attaches its annotations to distinct fields of that message only |
| AnnotationIdentity.MessagesWalkNamesWithin | main.go:59-144 | when the current tree's full names are distinct, the walk attaches its annotations to distinct descriptors, all declared in that tree |
| AnnotationIdentity.MessageEntryNamesWithin | main.go:65-75 | one message's comparison, nested messages included, attaches annotations to distinct descriptors declared in that message's subtree |
| AnnotationIdentity.WalkAnnotatesEachDescriptorOnce | main.go:59-144 | with distinct full names in the current tree, no two annotations of the whole walk are attached to the same current descriptor: each paired message and field is reported at most once |
| StrictProperties.SelfComparisonSilent | main.go:59-144 | a well-formed file compared against itself draws no annotation, for any differ that finds no difference between a rule set and itself |

## Left out

- Rule registration through `check.Main` and `check.Spec` (main.go:29-43) is plugin plumbing and is not modelled. It sets the rule ID, the purpose text and that the rule is on by default.
- The ignored `context.Context` and `check.Request` parameters of the handler (main.go:46, 48) are not modelled.
- Unwrapping `descriptor.FileDescriptor` into its protoreflect file (main.go:54-55) is not modelled: a `File` is its list of top-level messages.
- How protovalidate resolves rules from the options, and how `cmp.Diff` with `protocmp.Transform()` compares them, are not modelled. Both are foreign code, so the model takes them as `Resolver` parameters. Every property holds for every resolver. `SelfComparisonSilent` also assumes the differ sees no difference between a rule set and itself.
- The annotation's message text and its `%q` quoting (main.go:96, 135) are not modelled. An annotation records its kind, the name it quotes (the message's short name or the field's full name), and its current and against descriptors.
- Source locations of annotations (main.go:99-104) are not modelled.
- `ByName` and `ByNumber` return the first match in declaration order. protoreflect's lookups are not part of this model; on well-formed descriptors the two agree.
- Running the same comparison twice yields the same annotations and error. This holds by construction, because every method is proved equal to a function of its inputs, so there is no separate lemma for it.

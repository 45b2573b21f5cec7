# Java writer, endpoint resolution and timestamp arithmetic

This project models three sequential pieces of the Java code generator and its
client libraries:

- **The Java writer visitor**. It renders the generator's AST (identifiers,
  primitive and array types, scopes, values, variable declarations and
  references, assignments) into an append-only text buffer, which `write`
  returns and `clear` empties. It also builds the raw text of line, block and
  Javadoc comments and hands it to an external source formatter through
  `format`. Modules: `JavaAst` (the node datatypes), `JavaWriter` (buffer
  visits and `accept`), `JavaComments` (comment text and `format`), and `Text`
  (the Java string operations they use: `split("\\r?\\n")`, `String.join`,
  `indexOf`, `contains`, `replace`, `toLowerCase`).
- **Endpoint and universe-domain resolution** (`EndpointContext`). This covers
  the endpoint template and its two `buildEndpoint` overloads, the mTLS
  endpoint resolver, and `determineEndpoint`'s decision procedure over the
  configured universe domain and custom endpoints. The two nullable memo
  fields are modelled as an explicit `Resolved` state threaded through
  `resolveEndpoint`, `resolveUniverseDomain` and `isValidUniverseDomain`.
  Each exception is a value of `EndpointError`. Fields that were assigned
  before a throw stay assigned.
- **Cloud timestamp arithmetic** (`CloudTimestamp`). A timestamp is a
  seconds/nanos pair limited to the years 0001 to 9999. The model covers:
  - construction with range checks;
  - conversion from milliseconds and microseconds with floor normalisation
    of pre-epoch values;
  - conversion back to milliseconds;
  - equality and `compareTo`;
  - the fraction rule of `toString`.

  All of these are stated as the unit test asserts them.

Java's `/` and `%` truncate toward zero. They are written out as `JavaDiv`
and `JavaRem`, and proved to coincide with Dafny's Euclidean operators after
the one-step normalisation.

## Model

| member | source | states |
|---|---|---|
| JavaWriter.NewWriter | src/main/java/com/google/api/generator/engine/writer/JavaWriterVisitor.java:37-39 | a fresh visitor's buffer reads back as the empty text |
| JavaWriter.Clear | src/main/java/com/google/api/generator/engine/writer/JavaWriterVisitor.java:41-47 | after `clear`, `write` returns the empty text, whatever the buffer held |
| JavaWriter.VisitType | src/main/java/com/google/api/generator/engine/writer/JavaWriterVisitor.java:54-82 | the type visit succeeds iff the type is primitive, and then strictly extends the buffer; otherwise it fails with the not-implemented error |
| JavaWriter.ClearThenVisit | src/main/java/com/google/api/generator/engine/writer/JavaWriterVisitor.java:41-47 | `clear` followed by the visit of a renderable expression leaves exactly that expression's reference text for `write` to return |
| JavaWriter.KindNameLowersToKeyword | src/main/java/com/google/api/generator/engine/writer/JavaWriterVisitor.java:55-59 | lower-casing the name of every primitive type kind gives the Java keyword for that kind (`BOOLEAN` to `boolean`, and so on) |
| JavaWriter.IntegralKindsLower | src/main/java/com/google/api/generator/engine/writer/JavaWriterVisitor.java:59 | the same, for byte, short, int and long |
| JavaWriter.OtherKindsLower | src/main/java/com/google/api/generator/engine/writer/JavaWriterVisitor.java:59 | the same, for float, double, char, boolean and void |
| JavaWriter.VisitTypeAppends | src/main/java/com/google/api/generator/engine/writer/JavaWriterVisitor.java:54-82 | the type visit appends exactly the type's keyword, with `[]` for arrays, and nothing else; it fails exactly when the type is not primitive, and then always with the not-implemented error of the reference visit, a null reference included |
| JavaWriter.VisitModifiersAppends | src/main/java/com/google/api/generator/engine/writer/JavaWriterVisitor.java:96-111 | the declaration prefix appends each modifier word followed by one space, in the order scope (unless local), `static`, `final` |
| JavaWriter.VisitVariableExprAppends | src/main/java/com/google/api/generator/engine/writer/JavaWriterVisitor.java:90-117 | a variable expression appends exactly its reference text: the bare name for a use, and modifiers, type and name for a declaration. It fails exactly for a declaration of a non-primitive type |
| JavaWriter.VisitVariableExpr | src/main/java/com/google/api/generator/engine/writer/JavaWriterVisitor.java:90-117 | a variable expression fails iff it declares a non-primitive type. On success the old buffer is kept and the output ends with the identifier; a use appends exactly the name |
| JavaWriter.DeclarationAppends | src/main/java/com/google/api/generator/engine/writer/JavaWriterVisitor.java:96-116 | a declaration of a renderable type always succeeds and appends its declaration text |
| JavaWriter.DeclText | src/main/java/com/google/api/generator/engine/writer/JavaWriterVisitor.java:96-116 | a declaration's text is its space-terminated modifiers, then the type, one space and the name |
| JavaWriter.DeclVisit | src/main/java/com/google/api/generator/engine/writer/JavaWriterVisitor.java:96-116 | the declaration visit is the modifier prefix, then the type, a space and the identifier, appended in that order |
| JavaWriter.DeclarationWords | src/main/java/com/google/api/generator/engine/writer/JavaWriterVisitor.java:96-116 | when the name holds no space, cutting a primitive declaration's text at every space gives back its modifier words (scope unless local, `static`, `final`, in that order), then the type keyword, then the name; so there are 2 words plus one per modifier present |
| JavaWriter.VisitExprAppends | src/main/java/com/google/api/generator/engine/writer/JavaWriterVisitor.java:85-124 | every expression visit appends exactly the expression's reference text, or fails with the error the reference text reports |
| JavaWriter.AssignmentLayout | src/main/java/com/google/api/generator/engine/writer/JavaWriterVisitor.java:119-124 | an assignment's text is the left side, then ` = `, then the right side's text, and nothing after it (no `;`) |
| JavaWriter.VisitAssignmentAppends | src/main/java/com/google/api/generator/engine/writer/JavaWriterVisitor.java:119-124 | an assignment visit appends exactly the assignment's text (left side, ` = `, right side), or fails with the error its text reports |
| JavaWriter.VisitExpr | src/main/java/com/google/api/generator/engine/writer/JavaWriterVisitor.java:85-124 | every expression visit that succeeds keeps the old buffer as a prefix of the new one |
| JavaWriter.AcceptContract | src/main/java/com/google/api/generator/engine/writer/JavaWriterVisitor.java:49-175 | dispatch over every node kind. An identifier appends exactly its name and a scope exactly its keyword. A type succeeds iff it is primitive and then appends its text, and otherwise fails with the not-implemented error. An expression appends its text or fails with its error. A line, block or Javadoc comment leaves the buffer untouched and returns `format` applied to its raw text (the `// ` lines, the `/** ... */` wrapping, the Javadoc lines) |
| JavaWriter.Accept | src/main/java/com/google/api/generator/engine/writer/JavaWriterVisitor.java:49-175 | a visit returns text exactly for the three comment nodes, and then leaves the writer unchanged; any successful visit keeps the old buffer as a prefix |
| JavaComments.Format | src/main/java/com/google/api/generator/engine/writer/JavaWriterVisitor.java:177-185 | `format` returns the formatter's text when it succeeds and the empty string when it throws |
| JavaComments.FormatFailureLooksEmpty | src/main/java/com/google/api/generator/engine/writer/JavaWriterVisitor.java:177-185 | a formatter failure is indistinguishable from a formatter that produced empty text |
| JavaComments.LineCommentShape | src/main/java/com/google/api/generator/engine/writer/JavaWriterVisitor.java:131-139 | the raw line-comment text has one physical line per line of the comment, each `// ` plus that line. The lines are the comment with CRLFs normalised and trailing line breaks dropped. A comment of only line breaks gives the empty text |
| JavaComments.VisitLineComment | src/main/java/com/google/api/generator/engine/writer/JavaWriterVisitor.java:131-139 | the visit returns the formatter's text for the raw line-comment text; a non-empty answer is always that text |
| Text.SplitLinesJoin | src/main/java/com/google/api/generator/engine/writer/JavaWriterVisitor.java:133 | the pieces of `split("\\r?\\n")`, joined with `\n`, are the input with CRLFs normalised and trailing line breaks removed; no piece holds a newline |
| JavaComments.BlockCommentWraps | src/main/java/com/google/api/generator/engine/writer/JavaWriterVisitor.java:141-146 | the raw block-comment text is `/** `, the whole unsplit body, then ` */`, and is 7 characters longer than the body |
| JavaComments.VisitBlockComment | src/main/java/com/google/api/generator/engine/writer/JavaWriterVisitor.java:141-146 | the visit returns the formatter's text for the wrapped block text; a non-empty answer is always that text |
| JavaComments.DescriptionTextLines | src/main/java/com/google/api/generator/engine/writer/JavaWriterVisitor.java:153-155 | the description part is one newline-terminated `* c` line per comment, in order |
| JavaComments.ParamLines | src/main/java/com/google/api/generator/engine/writer/JavaWriterVisitor.java:156-158 | there is one parameter line per entry, at the entry's position, reading `* @param name description` |
| JavaComments.ParamsTextLines | src/main/java/com/google/api/generator/engine/writer/JavaWriterVisitor.java:156-158 | the parameter part is those lines, each newline-terminated, in map order |
| JavaComments.SampleTextLines | src/main/java/com/google/api/generator/engine/writer/JavaWriterVisitor.java:159-166 | one sample's text is its heading, the opening fence, its `* `-prefixed lines and the closing fence, each newline-terminated |
| JavaComments.SamplesTextLines | src/main/java/com/google/api/generator/engine/writer/JavaWriterVisitor.java:159-166 | the samples part is the concatenation of those blocks, in sample order |
| JavaComments.AllSampleLinesNoNewlines | src/main/java/com/google/api/generator/engine/writer/JavaWriterVisitor.java:159-166 | no line of any sample block contains a newline, whatever the samples' text |
| JavaComments.OptionalLineLines | src/main/java/com/google/api/generator/engine/writer/JavaWriterVisitor.java:167-172 | a present deprecation or throws text yields exactly one newline-terminated tag line, and an absent one yields nothing |
| JavaComments.JavaDocSourceIsLines | src/main/java/com/google/api/generator/engine/writer/JavaWriterVisitor.java:148-175 | the Javadoc text is its reference lines joined with `\n`, in the order `/**`, descriptions, parameters, sample blocks, deprecation, throws, `*/` |
| JavaComments.JavaDocLineStructure | src/main/java/com/google/api/generator/engine/writer/JavaWriterVisitor.java:148-175 | when the Javadoc's texts are single lines, cutting its raw text at newlines gives back exactly the reference lines. Their count is 2 plus one per description and parameter, plus the sample blocks' lines, plus one per present optional |
| JavaComments.VisitJavaDoc | src/main/java/com/google/api/generator/engine/writer/JavaWriterVisitor.java:148-175 | the visit returns the formatter's text for the Javadoc text; a non-empty answer is always that text |
| JavaComments.JavaDocSourceAsWritten | src/main/java/com/google/api/generator/engine/writer/JavaWriterVisitor.java:148-175 | the as-written Javadoc text starts with `/**` and a newline and ends with `*/` |
| JavaComments.VisitJavaDocAsWritten | src/main/java/com/google/api/generator/engine/writer/JavaWriterVisitor.java:148-175 | the as-written visit returns the formatter's text for the as-written Javadoc text; a non-empty answer is always that text |
| JavaComments.JavaDocAsWrittenWrapsOptionals | src/main/java/com/google/api/generator/engine/writer/JavaWriterVisitor.java:167-172 | the as-written text equals the intended text of a comment whose optionals were first wrapped as `Optional[...]` |
| JavaComments.VisitJavaDocAsWrittenWraps | src/main/java/com/google/api/generator/engine/writer/JavaWriterVisitor.java:167-172 | the as-written visit equals the intended visit of a comment whose optionals were first wrapped as `Optional[...]` |
| JavaComments.JavaDocOptionalDiscrepancy | src/main/java/com/google/api/generator/engine/writer/JavaWriterVisitor.java:167-172 | with a deprecation or throws text present, the as-written text is 10 characters longer per present optional and never equals the intended one |
| Text.ToLowerAscii | src/main/java/com/google/api/generator/engine/writer/JavaWriterVisitor.java:59 | lower-casing keeps the length and lower-cases each character on its own |
| Text.ReplaceAllOnce | gax-java/gax/src/main/java/com/google/api/gax/rpc/EndpointContext.java:170-174 | `replace` changes a single occurrence when nothing before it can start the pattern and the text after it lacks one of the pattern's characters |
| EndpointContext.ReplaceServiceName | gax-java/gax/src/main/java/com/google/api/gax/rpc/EndpointContext.java:171-172 | the first replacement puts the service name in the host label and leaves the other two placeholders |
| EndpointContext.ReplaceUniverse | gax-java/gax/src/main/java/com/google/api/gax/rpc/EndpointContext.java:173 | the second replacement puts in the universe domain, provided the service name holds no `U` |
| EndpointContext.ReplacePort | gax-java/gax/src/main/java/com/google/api/gax/rpc/EndpointContext.java:174 | the third replacement puts in the port, provided nothing before the placeholder holds a `P` |
| EndpointContext.BuildEndpointUnfolds | gax-java/gax/src/main/java/com/google/api/gax/rpc/EndpointContext.java:170-174 | after the first two replacements only the port placeholder is left |
| EndpointContext.BuildEndpointShape | gax-java/gax/src/main/java/com/google/api/gax/rpc/EndpointContext.java:170-175 | for a service name without `U` or `P` and a universe without `P`, the endpoint is `https://<service>.<universe>:<port>` |
| EndpointContext.BuildEndpoint | gax-java/gax/src/main/java/com/google/api/gax/rpc/EndpointContext.java:170-175 | every endpoint built from the template keeps its `https://` scheme in front, whatever is substituted |
| EndpointContext.KeepsScheme | gax-java/gax/src/main/java/com/google/api/gax/rpc/EndpointContext.java:171-174 | a replacement whose pattern starts with a capital letter leaves the `https://` scheme in front untouched |
| EndpointContext.BuildEndpointRescans | gax-java/gax/src/main/java/com/google/api/gax/rpc/EndpointContext.java:170-175 | the replacements are successive: a service name beginning `PORT` gets the port spliced into its host label too |
| EndpointContext.RescanPort | gax-java/gax/src/main/java/com/google/api/gax/rpc/EndpointContext.java:174 | both `PORT` occurrences in such an endpoint are replaced |
| EndpointContext.DefaultEndpointShape | gax-java/gax/src/main/java/com/google/api/gax/rpc/EndpointContext.java:166-168 | for a service name without `U` or `P`, the one-argument overload gives `https://<service>.googleapis.com:443` |
| EndpointContext.BuildDefaultEndpoint | gax-java/gax/src/main/java/com/google/api/gax/rpc/EndpointContext.java:166-168 | the one-argument overload also keeps the `https://` scheme in front |
| EndpointContext.MtlsEndpointResolver | gax-java/gax/src/main/java/com/google/api/gax/rpc/EndpointContext.java:144-164 | it fails exactly when switching is allowed, the policy is AUTO, the client certificate is used and the key store cannot be read. Otherwise it returns the mTLS endpoint iff switching is allowed and the policy is ALWAYS or (AUTO with a client certificate and a key store), and the plain endpoint in every other case |
| EndpointContext.StripScheme | gax-java/gax/src/main/java/com/google/api/gax/rpc/EndpointContext.java:110-112 | an endpoint containing `https://` anywhere loses its first 8 characters; any other is unchanged |
| EndpointContext.ParseUniverseDomain | gax-java/gax/src/main/java/com/google/api/gax/rpc/EndpointContext.java:119-126 | parsing fails (out-of-bounds `substring`) exactly when both a `:` and a `.` are present and the first `:` comes before the first `.`. Otherwise the universe is the text that starts just after the first `.` (at the start when there is none) and runs to the first `:` or to the end; it never holds a `:` |
| EndpointContext.ParseHostUniversePort | gax-java/gax/src/main/java/com/google/api/gax/rpc/EndpointContext.java:119-123 | `host.universe:port` names universe `universe` |
| EndpointContext.ParseHostUniverse | gax-java/gax/src/main/java/com/google/api/gax/rpc/EndpointContext.java:124-126 | `host.universe` without a port names universe `universe` |
| EndpointContext.ParseHostPort | gax-java/gax/src/main/java/com/google/api/gax/rpc/EndpointContext.java:119-123 | `host:port` with no `.` names universe `host`, the whole text before the colon |
| EndpointContext.ParseHostOnly | gax-java/gax/src/main/java/com/google/api/gax/rpc/EndpointContext.java:124-126 | an endpoint with neither `.` nor `:` is its own universe |
| EndpointContext.ResolveInUniverse | gax-java/gax/src/main/java/com/google/api/gax/rpc/EndpointContext.java:96-108 | the mTLS rejection happens exactly when the resolver's chosen endpoint contains `mtls` and the universe is not `googleapis.com`. On success the universe is recorded with a non-null endpoint. A throw leaves the universe field as it was |
| EndpointContext.Determine | gax-java/gax/src/main/java/com/google/api/gax/rpc/EndpointContext.java:81-142 | once both fields are set it changes nothing. A success always records a universe. A throw never changes the universe field |
| EndpointContext.ConfigurationErrors | gax-java/gax/src/main/java/com/google/api/gax/rpc/EndpointContext.java:94-141 | in both directions: an empty configured universe domain fails with the empty-universe error, and otherwise an empty custom endpoint fails with "unable to resolve" |
| EndpointContext.DefaultResolution | gax-java/gax/src/main/java/com/google/api/gax/rpc/EndpointContext.java:88-93 | with no universe domain and no custom endpoint, the universe is `googleapis.com` and the endpoint is the default template's, or the mTLS endpoint when the provider switches. It succeeds iff the resolver does |
| EndpointContext.TransportEndpointTakesPrecedence | gax-java/gax/src/main/java/com/google/api/gax/rpc/EndpointContext.java:86-87 | with a transport-channel endpoint set, the client-settings endpoint has no effect on the outcome |
| EndpointContext.CustomEndpoint | gax-java/gax/src/main/java/com/google/api/gax/rpc/EndpointContext.java:86-87 | the custom endpoint is the transport-channel endpoint when that is set, and the client-settings endpoint otherwise |
| EndpointContext.LocalhostVerbatim | gax-java/gax/src/main/java/com/google/api/gax/rpc/EndpointContext.java:109-117 | a custom endpoint mentioning `localhost` after scheme stripping is used verbatim in universe `googleapis.com` |
| EndpointContext.CustomEndpointUniverse | gax-java/gax/src/main/java/com/google/api/gax/rpc/EndpointContext.java:109-138 | a custom endpoint `host.universe:port` puts the context in universe `universe`. Without an mTLS switch, the endpoint is rebuilt from the service name in that universe on port 443; with one, outside `googleapis.com`, it fails with the mTLS rejection |
| EndpointContext.SuccessIndependentOfState | gax-java/gax/src/main/java/com/google/api/gax/rpc/EndpointContext.java:81-142 | a successful determination does not depend on the partly-set fields it starts from. Only the default branch with a null mTLS endpoint records a null endpoint |
| EndpointContext.ResolveEndpoint | gax-java/gax/src/main/java/com/google/api/gax/rpc/EndpointContext.java:177-182 | with the endpoint field set it returns that field and changes nothing; any value it returns is the stored field |
| EndpointContext.ResolveEndpointRepeats | gax-java/gax/src/main/java/com/google/api/gax/rpc/EndpointContext.java:177-182 | memoisation: after a successful call, calling again returns the same value and leaves the fields as they are |
| EndpointContext.ResolveUniverseDomain | gax-java/gax/src/main/java/com/google/api/gax/rpc/EndpointContext.java:184-189 | with the universe field set it returns it unchanged; a returned universe is the stored, non-null field |
| EndpointContext.IsValidUniverseDomain | gax-java/gax/src/main/java/com/google/api/gax/rpc/EndpointContext.java:191-197 | whenever it returns, it returns true with a universe recorded; once resolved it answers true without resolving |
| EndpointContext.ValidAfterResolve | gax-java/gax/src/main/java/com/google/api/gax/rpc/EndpointContext.java:184-197 | after `resolveUniverseDomain` succeeds, `isValidUniverseDomain` answers true and resolving again changes nothing |
| EndpointContext.RetryReturnsRejectedEndpoint | gax-java/gax/src/main/java/com/google/api/gax/rpc/EndpointContext.java:97-105 | when `resolveEndpoint` throws the mTLS rejection, the rejected endpoint is already stored, and a retry returns it without error |
| EndpointContext.RetryAfterRejectionScenario | gax-java/gax/src/main/java/com/google/api/gax/rpc/EndpointContext.java:96-108 | in any non-default universe, with an ALWAYS provider and an mTLS endpoint, the first call throws and the retry returns the mTLS endpoint |
| EndpointContext.RetryAfterRejectionExample | gax-java/gax/src/main/java/com/google/api/gax/rpc/EndpointContext.java:96-108 | an instance: service `pubsub` in universe `example.com` gets `https://pubsub.mtls.googleapis.com:443` on the retry |
| EndpointContext.DetermineAtomic | gax-java/gax/src/main/java/com/google/api/gax/rpc/EndpointContext.java:81-142 | the corrected determination: it throws the same errors as the code, leaves both fields untouched when it throws, and otherwise agrees with the code |
| EndpointContext.ResolveEndpointAtomic | gax-java/gax/src/main/java/com/google/api/gax/rpc/EndpointContext.java:177-182 | over the corrected determination a failed call changes no field |
| EndpointContext.AtomicRetryFailsAgain | gax-java/gax/src/main/java/com/google/api/gax/rpc/EndpointContext.java:177-182 | with the corrected determination a retry gives the same answer: a failure fails again with the same error, and a success repeats its value |
| CloudTimestamp.CalendarMin | java-core/google-cloud-core/src/test/java/com/google/cloud/TimestampTest.java:44-49 | MIN's seconds, -62135596800, are 0001-01-01T00:00:00Z |
| CloudTimestamp.CalendarMax | java-core/google-cloud-core/src/test/java/com/google/cloud/TimestampTest.java:51-61 | MAX's seconds are 9999-12-31T23:59:59Z |
| CloudTimestamp.CalendarEpoch | java-core/google-cloud-core/src/test/java/com/google/cloud/TimestampTest.java:35-36 | the epoch, 1970-01-01T00:00:00Z, is 0 seconds |
| CloudTimestamp.CalendarTestInstant | java-core/google-cloud-core/src/test/java/com/google/cloud/TimestampTest.java:35-36 | the test's 1444662894 s is 2015-10-12T15:14:54Z |
| CloudTimestamp.OfTimeSecondsAndNanos | java-core/google-cloud-core/src/test/java/com/google/cloud/TimestampTest.java:156-182 | construction succeeds iff the seconds lie in [MIN, MAX] and the nanos in [0, 999999999], and then keeps both unchanged |
| CloudTimestamp.JavaDivision | java-core/google-cloud-core/src/test/java/com/google/cloud/TimestampTest.java:124-125 | Java's truncating `/` and `%` recombine to the dividend, and the remainder takes the dividend's sign |
| CloudTimestamp.NormalizedIsFloor | java-core/google-cloud-core/src/test/java/com/google/cloud/TimestampTest.java:121-132 | borrowing a second when Java's remainder is negative gives exactly floor division and a non-negative remainder |
| CloudTimestamp.OfMicrosFloor | java-core/google-cloud-core/src/test/java/com/google/cloud/TimestampTest.java:63-68 | `ofTimeMicroseconds` succeeds iff the whole seconds are in range, and then gives the floor of micros/10^6 and (micros mod 10^6)*1000 nanos |
| CloudTimestamp.OfMicrosNonNegative | java-core/google-cloud-core/src/test/java/com/google/cloud/TimestampTest.java:63-68 | for non-negative micros these are Java's own `/` and `%`, as the test computes them |
| CloudTimestamp.OfMicros | java-core/google-cloud-core/src/test/java/com/google/cloud/TimestampTest.java:63-68 | `ofTimeMicroseconds` either fails or gives a valid timestamp denoting exactly micros × 1000 ns since the epoch |
| CloudTimestamp.OfMillisFloor | java-core/google-cloud-core/src/test/java/com/google/cloud/TimestampTest.java:70-79 | `of(millis)` succeeds iff the whole seconds are in range, and then gives the floor of millis/1000 and (millis mod 1000)*10^6 nanos |
| CloudTimestamp.OfMillisPreEpoch | java-core/google-cloud-core/src/test/java/com/google/cloud/TimestampTest.java:121-132 | for negative millis the result is the test's expectation: Java's quotient and remainder, with one second borrowed when the remainder is negative |
| CloudTimestamp.OfMillis | java-core/google-cloud-core/src/test/java/com/google/cloud/TimestampTest.java:70-79 | `of(millis)` either fails or gives a valid timestamp denoting exactly millis × 10^6 ns since the epoch |
| CloudTimestamp.MillisAgreeWithMicros | java-core/google-cloud-core/src/test/java/com/google/cloud/TimestampTest.java:63-79 | a count of milliseconds and the same count in microseconds give the same timestamp or the same error |
| CloudTimestamp.ConversionExamples | java-core/google-cloud-core/src/test/java/com/google/cloud/TimestampTest.java:81-196 | 10000100 µs is (10 s, 100000 ns); -1000 ms is (-1 s, 0); -12345 ms is (-13 s, 655000000 ns); 12345 ms is (12 s, 345000000 ns); one second outside either bound is rejected |
| CloudTimestamp.MillisRoundTrip | java-core/google-cloud-core/src/test/java/com/google/cloud/TimestampTest.java:134-139 | `toDate` after `of(millis)` gives back the millis |
| CloudTimestamp.TimestampRoundTrip | java-core/google-cloud-core/src/test/java/com/google/cloud/TimestampTest.java:134-139 | `of(toDate(t))` is `t` with its sub-millisecond nanos dropped, and `t` itself when it has none |
| CloudTimestamp.ToDateExample | java-core/google-cloud-core/src/test/java/com/google/cloud/TimestampTest.java:134-139 | 1444662894 s and 1234 µs give 1444662894001 ms |
| CloudTimestamp.ToMillis | java-core/google-cloud-core/src/test/java/com/google/cloud/TimestampTest.java:134-139 | `toDate` gives the floor of the timestamp's nanoseconds since the epoch divided by 10^6 |
| CloudTimestamp.EqualityIsSameInstant | java-core/google-cloud-core/src/test/java/com/google/cloud/TimestampTest.java:198-208 | two valid timestamps are equal iff they denote the same nanosecond since the epoch |
| CloudTimestamp.WholeSecondMillis | java-core/google-cloud-core/src/test/java/com/google/cloud/TimestampTest.java:198-208 | a whole-second count of milliseconds constructs the same timestamp as (seconds, 0) |
| CloudTimestamp.CompareTo | java-core/google-cloud-core/src/test/java/com/google/cloud/TimestampTest.java:313-332 | the comparison answers -1, 0 or 1 |
| CloudTimestamp.CompareIsInstantOrder | java-core/google-cloud-core/src/test/java/com/google/cloud/TimestampTest.java:313-332 | on valid timestamps the comparison is negative, zero or positive exactly when the first instant is earlier, equal or later |
| CloudTimestamp.CompareIsTotalOrder | java-core/google-cloud-core/src/test/java/com/google/cloud/TimestampTest.java:313-332 | the comparison is antisymmetric and transitive |
| CloudTimestamp.OrderExamples | java-core/google-cloud-core/src/test/java/com/google/cloud/TimestampTest.java:313-332 | MIN < MAX, MAX > MIN, (100 s, 1000 ns) < (101 s, 0), and (100 s, 0) is equal to itself |
| CloudTimestamp.Digits | java-core/google-cloud-core/src/test/java/com/google/cloud/TimestampTest.java:213-216 | zero-padded printing gives exactly `width` characters, all decimal digits |
| CloudTimestamp.DigitsRoundTrip | java-core/google-cloud-core/src/test/java/com/google/cloud/TimestampTest.java:213-216 | the padded digits read back as the number printed |
| CloudTimestamp.ToStringFraction | java-core/google-cloud-core/src/test/java/com/google/cloud/TimestampTest.java:210-219 | the text is the date-time, then the fraction, then `Z`. The fraction is absent iff the nanos are 0, and otherwise is a point and exactly nine digits that read back as the nanos |
| CloudTimestamp.ToString | java-core/google-cloud-core/src/test/java/com/google/cloud/TimestampTest.java:210-219 | the text starts with the date-time and ends with `Z`, and is exactly one character longer than the date-time iff the nanos are 0 |
| CloudTimestamp.DigitsOfZero | java-core/google-cloud-core/src/test/java/com/google/cloud/TimestampTest.java:215-216 | zero prints as zeros at every width |
| CloudTimestamp.FractionOfHundredNanos | java-core/google-cloud-core/src/test/java/com/google/cloud/TimestampTest.java:214-216 | 0 ns prints no fraction, and 100 ns prints `.000000100` |
| CloudTimestamp.DigitsOfNines | java-core/google-cloud-core/src/test/java/com/google/cloud/TimestampTest.java:213 | 10^w - 1 prints as w nines |
| CloudTimestamp.FractionOfMax | java-core/google-cloud-core/src/test/java/com/google/cloud/TimestampTest.java:213 | MAX's fraction prints as `.999999999` |

## Left out

- The source formatter is an uninterpreted function. It either returns text or throws. The diagnostic `System.out.println` in `format` is output and is not modelled.
- A visit that throws part-way through (a declaration of a reference type) leaves its partial output in the Java buffer. The model returns the error without the partial buffer.
- The classes `TypeNode`, `ScopeNode`, `ValueExpr`, `VariableExpr`, `AssignmentExpr` and the comment nodes are not part of this model. Their fields are what the visitor reads. `ScopeNode.toString` is taken to be the Java keyword, and `ValueExpr`'s value is taken to be its printed text.
- JavaWriter.Accept: renders a Javadoc node with the corrected text `JavaDocSource` (see Findings). The as-written visit is JavaComments.VisitJavaDocAsWritten, and JavaComments.VisitJavaDocAsWrittenWraps relates the two.
- JavaWriter.DeclarationWords: the split-at-spaces round trip is stated only for identifier names without a space; Java identifiers never hold one.
- `JavaComments.JavaDocSourceAsWritten` assumes the Javadoc optionals are `java.util.Optional`, whose `toString` is `Optional[x]`. The node class is not part of this model.
- Text.ToLowerAscii: lower-cases ASCII letters only. `toLowerCase()` uses the default locale, which is taken to map `A`-`Z` to `a`-`z`; under a Turkish or Azeri locale `INT` would become `ınt` with a dotless i, and that is not modelled.
- The `MtlsProvider` class is three inputs: usage policy, client-certificate use, and key store (loaded, null, or unreadable). Building a default provider from the environment is the parameter `env`.
- The AutoValue builder, the unused invalid-universe message constant, and the commented-out credentials comparison in `isValidUniverseDomain` are left out.
- EndpointContext.BuildEndpointShape: stated only for a service name without `U` or `P` and a universe without `P`. With such letters the successive replacements can rewrite text that an earlier replacement inserted. EndpointContext.BuildEndpointRescans shows one such case, but not all of them are characterised.
- EndpointContext.DefaultEndpointShape: stated only for a service name without `U` or `P`, for the same reason as BuildEndpointShape; EndpointContext.BuildDefaultEndpoint keeps only the scheme prefix for any name.
- EndpointContext.CustomEndpointUniverse: covers only custom endpoints of the form `host.universe:port` with no scheme. The general parser is `EndpointContext.ParseUniverseDomain`.
- The `Timestamp` class is not part of this model. The model's contracts are the ones its unit test asserts. `ofTimeMicroseconds` is taken to floor negative counts as `of(Date)` does, which the test only checks for a positive count. The test's `of(new java.sql.Timestamp(ms))` is taken to equal `of(Date)` for whole-millisecond inputs, so CloudTimestamp.ConversionExamples states those cases through `of(millis)`.
- CloudTimestamp.ToString: the date and time of day to the second is a parameter, `dateTime`. Civil date-time formatting of arbitrary seconds needs the Java time library. Only the fraction rule and the `Z` suffix are modelled, together with the calendar values of MIN, MAX, the epoch and the test instant.
- Timestamp parsing (with and without zone offsets or names), `fromProto`, serialization, and the `java.sql.Timestamp` and `toSqlTimestamp` round trip are left out. They rely on the Java time, protobuf and JDBC libraries.
- Integer widths: seconds and millisecond counts are Java longs. The model uses unbounded integers, because every value within the timestamp range fits a long.
- The stub-settings composer test, the generated sample goldens, the commented-out HTTP/JSON client test and the Python path utility test are not part of this model. They contain no logic of the three pieces above.

## Findings

| source | as written | input that shows it | evidently intended | confidence | as-written member | corrected member |
|---|---|---|---|---|---|---|
| src/main/java/com/google/api/generator/engine/writer/JavaWriterVisitor.java:167-172 | the `@deprecated` and `@throws` lines concatenate the `Optional` itself, so its `toString` wrapper reaches the comment | a Javadoc whose deprecation text is `use bar()` renders the line `* @deprecated Optional[use bar()]` | the line carries the optional's contents: `* @deprecated use bar()` | medium (assumes `java.util.Optional`), not executed | JavaComments.JavaDocOptionalDiscrepancy | JavaComments.JavaDocLineStructure |
| gax-java/gax/src/main/java/com/google/api/gax/rpc/EndpointContext.java:97-105 | `resolvedEndpoint` is assigned before the mTLS-outside-`googleapis.com` check throws, and `resolveEndpoint` only determines while that field is null | service `pubsub`, universe `example.com`, mTLS endpoint `https://pubsub.mtls.googleapis.com:443`, switching allowed, policy ALWAYS: the first `resolveEndpoint` throws, and the second returns the rejected mTLS endpoint | a rejected resolution leaves the fields unset, so every retry throws again | medium, not executed | EndpointContext.RetryAfterRejectionExample | EndpointContext.AtomicRetryFailsAgain |

# Sunbolt: a verified model of its redactor, session registry, agent channel and audit chain

Sunbolt opens browser terminals on local machines and on enrolled agent nodes.
This project models the parts of it that keep secrets out of logs, keep terminal
output complete, and keep records of the past trustworthy, and proves what they
promise for every input, every run or every interleaving.

`dafny verify dfyconfig.toml` checks everything.

- **Redaction** (`Bytes`, `Utf8`, `CodePoints`, `RedactionSpec`, `KeyForms`,
  `HeaderForms`, `ValueShapes`, `Secrets`, `KeyScanner`, `Redactor`,
  `RedactionHeaders`, `RedactionKeys`, `RedactionTokens`, `RedactionPasses`,
  `RedactionSpans`, `RecoveryCodes`). Text is a string of bytes. Each of the
  three passes is a function on text (`RedactionSpec`) and an index loop proved
  equal to it (`KeyScanner`, `Redactor`). What a pass finds is characterized by
  positions, written-out bytes and written-out names (`KeyForms`, `HeaderForms`,
  `ValueShapes`), and what becomes of a JSON member, a header and a token by the
  text itself (`Secrets`). A pass is a fixpoint on its own output, later passes
  undo nothing of earlier ones, so the whole is idempotent and changes exactly
  the texts with something to redact.
- **Terminal sessions** (`Sessions`, `SessionRegistry`, `SessionRuns`,
  `SessionLife`, `ReattachProtocol`). The registry's table of sessions is
  updated in place by a class whose methods are tied to one step function;
  quotas, life cycle, expiry, replay ring, numbering and reconnect tokens are
  proved over every run. The reattach protocol is a system of one reader and any
  number of browsers, with one step for each critical section, broadcast and
  receive.
- **Agent channel** (`LongPoll`, `LongPollFrames`, `LongPollRuns`,
  `LongPollSteps`, `AgentConnections`). Queue, event channel, message ids and
  frame handler of a long-poll connection, once as a series of whole polls and
  once as a system in which polls, senders and receivers interleave, and the
  registry that says which transport serves a node.
- **Audit chain** (`Hex`, `Decimal`, `AuditChain`, `AuditLog`,
  `AuditTampering`). SHA-256 is a function parameter. That it shows no collision
  is an explicit hypothesis, and only about the strings hashed for the events
  that the theorem names: those of the logs, or one event and its replacement.
- **Encoders and bounded arithmetic** (`Encoders`, `Backoff`). Base32 and
  base64url against the bit grouping of RFC 4648, and saturating backoff against
  unbounded exponential growth.
- **Stateful policies** (`RateLimiter`, `RateLimiterRuns`, `Routing`, `Nodes`,
  `NodeRegistry`, `NodeRuns`, `NodeCredentials`). Each is tied to the history of
  what was done; what an agent is answered is decided by it alone.

`Integers` and `Wrappers` hold machine limits with a little arithmetic, and the
option type. Every mutex critical section is one step. Time, random bytes,
secrets, token hashes and SHA-256 are parameters. 64-bit and 32-bit counters
wrap or saturate as in a release build.

## Where the code and its documentation differ

- `verify_chain` is documented to fail if an event was added out of order,
  removed, or had its content modified
  (`crates/sunbolt-audit/src/chain.rs:29-33`).
  - Modified: in an intact log, every replacement of an event that does not
    collide with it is noticed if the event is not the last one, its actor is
    neither absent nor empty, and neither its actor nor its message holds a
    colon; otherwise some replacement is accepted, whatever the hash
    (`AuditTampering.AlterationNoticedExactlyWhen`). The inputs that fail are a
    colon moved between message and actor
    (`AuditTampering.ColonInActorIsAmbiguous`), an absent actor made an empty
    one (`AuditTampering.AbsentActorIsAmbiguous`), and a last event sealed anew
    (`AuditTampering.SealedAnew`). A change of any number of events that keeps
    the last hash is accepted exactly when it keeps their number and content
    (`AuditTampering.ChangeAcceptedExactlyWhen`); one that does not may be
    anything (`AuditTampering.ResealedAccepted`).
  - Removed: a removal is noticed exactly when it leaves an event after it, so a
    truncated log is accepted (`AuditTampering.RemovalNoticedExactlyWhen`).
  - Added: holds; an added event is accepted only at the end, linked and sealed
    (`AuditTampering.InsertionAcceptedExactlyWhen`).
  - Out of order: holds; a rearrangement of the events is accepted only if it is
    the log itself (`AuditTampering.ReorderingNoticed`). Whatever is put
    together from a log's own events, left out, repeated or moved, is accepted
    exactly when it is a prefix of the log
    (`AuditTampering.RearrangedAcceptedExactlyWhen`).
- The rate limiter is documented to count the attempts within the window
  (`crates/sunbolt-control/src/rate_limit.rs:9-13`). An attempt at a time when
  the clock cannot go back one window empties the queue, and what it dropped
  stays forgotten, also once the clock can go back. At every time the decision
  is the counting rule's unless the forgotten attempts in the window make the
  difference to a full one (`RateLimiterRuns.RuleHoldsExactlyWhen`), and over
  every series no window overflows exactly when no attempt meets a window that
  only the forgotten ones fill (`RateLimiterRuns.WindowsHoldExactlyWhen`). The
  inputs that fail are `RateLimiterRuns.EarlyWindowCanOverflow`, before the
  clock has run for one window, and `RateLimiterRuns.SettledClockCanOverflow`,
  after it has. Where such a time exists depends on the platform: on Windows a
  Rust `Instant` cannot go below an epoch near the start of the machine, so it
  does there for one window after that; on Linux an `Instant` can go far below
  it, so there it does not.
- `redact_sensitive` is documented to return the text without allocation when no
  redaction is needed (`crates/sunbolt-audit/src/redaction.rs:39-42`). The
  header pass rebuilds every line into a buffer and drops it if no line is a
  sensitive header, so only an empty text is returned without a buffer having
  been filled (`Redactor.RedactSensitive`); `Redactor.NoSecretsHere` is a clean
  text that is rebuilt.

A credential is looked up by its fingerprint and proof, and the first one that
matches is taken. If a secret were issued twice to a node, it would expire
ninety days after the first time (`NodeCredentials.ConnectionDecided`).

Two more properties hold only up to a bound, and the bound is exact. At most
three terminal opens per relay select it if opens do not overlap; with p of them
at once it is p + 2 (`Routing.OneRelayBounded`, `Routing.BoundIsTight`). And a
bracketed value ends where its brackets balance if they are nested less than
2^32 deep (`ValueShapes.BracketedValueEndsAtFirstClose`,
`ValueShapes.DeepNestingEndsEarly`).

## Model

| member | source | states |
|---|---|---|
| RedactionPasses.RedactIdempotent | crates/sunbolt-audit/src/redaction.rs:44-54 | redacting a redacted text changes nothing, for every text |
| RedactionPasses.RedactedIsClean | crates/sunbolt-audit/src/redaction.rs:44-54 | the final output has only redacted sensitive headers, every sensitive key has no value or the mark, and no maximal token is sensitive |
| RedactionPasses.RedactUnchangedIffClean | crates/sunbolt-audit/src/redaction.rs:36-54 | a text is returned unchanged exactly when no pass has anything to redact in it |
| RedactionPasses.KeysKeepHeaders | crates/sunbolt-audit/src/redaction.rs:107-144 | the key/value pass creates no header line that the header pass would rewrite |
| RedactionPasses.TokensKeepHeaders | crates/sunbolt-audit/src/redaction.rs:286-318 | nor does the token pass |
| RedactionPasses.TokensKeepKeys | crates/sunbolt-audit/src/redaction.rs:286-318 | the token pass leaves every sensitive key without a value or with the mark |
| RedactionKeys.OutputKeysClean | crates/sunbolt-audit/src/redaction.rs:107-144 | every sensitive key of the output, whether the scan visits it or not, has no value or exactly the mark |
| RedactionKeys.KeysUnchangedIffClean | crates/sunbolt-audit/src/redaction.rs:107-144 | the key/value pass changes exactly the texts with another value for a sensitive key |
| RedactionKeys.ValueReadback | crates/sunbolt-audit/src/redaction.rs:207-284 | quoted, bracketed, unterminated, bare or empty, the mark put in place of a value is read back as exactly the value |
| RedactionHeaders.OutputHeadersClean | crates/sunbolt-audit/src/redaction.rs:56-105 | every sensitive header line of the header pass's output has the mark as its value |
| RedactionHeaders.HeadersUnchangedIffClean | crates/sunbolt-audit/src/redaction.rs:56-105 | the header pass changes exactly the texts with an unredacted sensitive header |
| RedactionTokens.OutputTokensClean | crates/sunbolt-audit/src/redaction.rs:286-341 | no maximal token of the output is 32 or more hexadecimal digits or a recovery code |
| RedactionTokens.TokensUnchangedIffClean | crates/sunbolt-audit/src/redaction.rs:286-341 | the token pass changes exactly the texts with a sensitive token |
| RedactionTokens.SensitiveTokenReplaced | crates/sunbolt-audit/src/redaction.rs:292-317 | a sensitive token between bytes outside tokens is replaced by the mark and the text on both sides is redacted on its own |
| RedactionSpans.KeyPassSplices | crates/sunbolt-audit/src/redaction.rs:107-144 | the key/value pass replaces disjoint increasing spans and copies everything else in order |
| RedactionSpans.TokenPassSplices | crates/sunbolt-audit/src/redaction.rs:286-318 | so does the token pass |
| ValueShapes.QuotedEndsAtFirstReturn | crates/sunbolt-audit/src/redaction.rs:227-244 | the scan that skips two bytes at a backslash ends a quoted value where a byte-by-byte reading first leaves the quotes, or at the end |
| ValueShapes.BracketedValueEndsAtFirstClose | crates/sunbolt-audit/src/redaction.rs:246-270 | a bracketed value never goes on after its brackets have balanced outside quotes, and if it ends before the text it ends where they balance exactly when they were nested less than 2^32 deep |
| ValueShapes.DeepNestingEndsEarly | crates/sunbolt-audit/src/redaction.rs:253-258 | 2^32 opening brackets wrap the 32-bit depth, and the first closing one ends the value with the others open |
| ValueShapes.ValueForms | crates/sunbolt-audit/src/redaction.rs:207-284 | the first byte that is not blank decides: after a quote the value runs to where a byte-by-byte reading leaves the quotes, from a bracket to where the brackets balance, from any other byte to the next blank, comma or semicolon; only blank text has no value |
| KeyForms.ByteClasses | crates/sunbolt-audit/src/redaction.rs:165-167 | which bytes are blanks, identifier bytes, token bytes, hexadecimal digits, quotes and delimiters |
| KeyForms.SensitiveNames | crates/sunbolt-audit/src/redaction.rs:5-34 | the names that keys are compared with |
| KeyForms.SensitiveExactlyWhen | crates/sunbolt-audit/src/redaction.rs:169-183 | a key is sensitive exactly when it ends in one of the names, in any case, with hyphens for underscores, after a separator or from its start |
| KeyForms.DelimiterExactlyWhen | crates/sunbolt-audit/src/redaction.rs:185-205 | the delimiter of a key lies after blanks, or after blanks, one double quote and blanks, and nowhere else |
| HeaderForms.NamedHeaderRedacted | crates/sunbolt-audit/src/redaction.rs:78-105 | a line of white space, one of the three names in any case, a colon and anything keeps its white space and name and gets the mark for its value |
| HeaderForms.OtherLineKept | crates/sunbolt-audit/src/redaction.rs:78-105 | every other line is kept as it is |
| HeaderForms.LinesApart | crates/sunbolt-audit/src/redaction.rs:56-76 | the header pass treats each line on its own |
| Secrets.FirstValueReplaced | crates/sunbolt-audit/src/redaction.rs:107-144 | the value of the first key of a text, if it is sensitive, is replaced by the mark, and the scan goes on after it |
| Secrets.FirstKeyCopied | crates/sunbolt-audit/src/redaction.rs:107-144 | a first key that ends in none of the names, or has no value, is copied, and the scan goes on after it |
| Secrets.QuotedValueRedacted | crates/sunbolt-audit/src/redaction.rs:107-144 | a quoted value of a sensitive key is replaced and its quotes are kept |
| Secrets.BareValueRedacted | crates/sunbolt-audit/src/redaction.rs:107-144 | a bare value is replaced up to the next blank, comma or semicolon |
| Secrets.JsonMemberRedacted | crates/sunbolt-audit/src/redaction.rs:44-54 | in a JSON member with a sensitive key and a string value, the whole redactor puts the mark in place of the value, whatever comes after it |
| Secrets.JsonObjectRedacted | crates/sunbolt-audit/src/redaction.rs:44-54 | a JSON object with one such member is known to the last byte |
| Secrets.HeaderRedacted | crates/sunbolt-audit/src/redaction.rs:44-54 | the whole redactor leaves nothing of the value of a sensitive header but the mark |
| Secrets.TokenRedacted | crates/sunbolt-audit/src/redaction.rs:286-341 | a maximal token is replaced exactly if it is 32 or more hexadecimal digits, or 8, 6 and 6 of them with hyphens between, and what is around it is treated apart |
| CodePoints.ValidExactlyWhen | crates/sunbolt-audit/src/redaction.rs:44-54 | a text is well-formed exactly when it is the encoding (section 3 of RFC 3629) of some scalar values |
| CodePoints.TrimsWhite | crates/sunbolt-audit/src/redaction.rs:81-82 | trimming removes any sequence of characters with the White_Space property |
| Utf8.BoundarySplits | crates/sunbolt-audit/src/redaction.rs:131-141 | cutting a well-formed text (section 3 of RFC 3629) at a character boundary leaves two well-formed texts |
| KeyScanner.ValueIsSliceable | crates/sunbolt-audit/src/redaction.rs:121-135 | delimiter start, value start and value end are character boundaries even after the two-byte escape skip |
| KeyScanner.NextIdentifier | crates/sunbolt-audit/src/redaction.rs:146-163 | the first maximal identifier at or after a position, normalized, or none because no identifier starts there |
| KeyScanner.NextKeyValueDelimiter | crates/sunbolt-audit/src/redaction.rs:185-205 | from any position, the index loop finds a colon or an equals sign exactly where blanks, of which one may be a double quote, come before it |
| KeyScanner.QuotedValueBounds | crates/sunbolt-audit/src/redaction.rs:227-244 | the index loop computes the bounds of a quoted value, with the escape skip past the end |
| KeyScanner.BalancedValueEnd | crates/sunbolt-audit/src/redaction.rs:246-270 | the index loop with its depth counter computes the end of a bracketed value |
| KeyScanner.UnquotedValueEnd | crates/sunbolt-audit/src/redaction.rs:272-284 | the index loop computes the end of a bare value |
| KeyScanner.ValueBoundsFrom | crates/sunbolt-audit/src/redaction.rs:207-225 | the bounds of a value of any kind, or none for blank text |
| Redactor.AppendRedactedHeaderLine | crates/sunbolt-audit/src/redaction.rs:78-99 | one line is copied, or its header redacted with the newline kept |
| Redactor.RedactSensitiveHeaders | crates/sunbolt-audit/src/redaction.rs:56-76 | the line loop equals the specification of the header pass, cutting only at character boundaries; the text is borrowed exactly when no line is a sensitive header, though all of it has been rebuilt |
| RedactionHeaders.HasHeaderByLines | crates/sunbolt-audit/src/redaction.rs:61-69 | some line of a text is a sensitive header exactly if its first line is one or the rest has one |
| Redactor.RedactSensitiveKeyValues | crates/sunbolt-audit/src/redaction.rs:107-144 | the scan loop equals the specification, every slice is at character boundaries, and the text is borrowed exactly when nothing was replaced (`last_end == 0`) |
| Redactor.RedactSensitiveTokens | crates/sunbolt-audit/src/redaction.rs:286-318 | the same for the token pass |
| Redactor.RedactSensitive | crates/sunbolt-audit/src/redaction.rs:44-54 | the whole redactor on well-formed text; the original is returned exactly when it is clean, and without any buffer having been filled exactly when it is empty |
| Redactor.NoSecretsHere | crates/sunbolt-audit/src/redaction.rs:39-42 | a text without a secret is rebuilt although the original is returned |
| Redactor.PlainTextIsClean | crates/sunbolt-audit/src/redaction.rs:44-54 | a text of less than 22 bytes without a colon or an equals sign has nothing to redact |
| RecoveryCodes.GenerateRecoveryCode | crates/sunbolt-auth/src/recovery_codes.rs:68-82 | for any ten bytes the generated code is their hexadecimal in three groups and has the shape the redactor looks for |
| RecoveryCodes.GroupedIsRecoveryCode | crates/sunbolt-audit/src/redaction.rs:332-341 | generator and redactor agree on the shape |
| RecoveryCodes.GroupedHoldsBytes | crates/sunbolt-auth/src/recovery_codes.rs:68-82 | without its hyphens a code is the hexadecimal form of its ten bytes |
| RecoveryCodes.GeneratedCodeReplaced | crates/sunbolt-audit/src/redaction.rs:286-318 | any generated code bounded by bytes outside tokens is replaced |
| RecoveryCodes.NoGeneratedCodeSurvives | crates/sunbolt-audit/src/redaction.rs:44-54 | no generated code stands as a whole token in any redacted text |
| SessionRegistry.TerminalSessionRegistry.InsertBackend | crates/sunbolt-control/src/terminal/session_registry.rs:128-173 | an insert is refused by the first exceeded limit, else installs the session |
| SessionRegistry.TerminalSessionRegistry.ChangeState | crates/sunbolt-control/src/terminal/session_registry.rs:175-184 | the state changes exactly from the same state or from one of the written-out states before it |
| SessionRegistry.TerminalSessionRegistry.ReattachTo | crates/sunbolt-control/src/terminal/session_registry.rs:190-218 | the guarded reattach, its new token and the snapshot it returns |
| SessionRegistry.TerminalSessionRegistry.Record | crates/sunbolt-control/src/terminal/session_registry.rs:272-289 | output is numbered, remembered in the ring and returned |
| SessionRegistry.TerminalSessionRegistry.RememberServerMessage | crates/sunbolt-control/src/terminal/session_registry.rs:291-311 | a message that names a session is pushed onto its ring |
| SessionRegistry.TerminalSessionRegistry.Terminate | crates/sunbolt-control/src/terminal/session_registry.rs:313-321 | the session is gone when the lock is released, and its backend returned |
| SessionRegistry.TerminalSessionRegistry.DrainExpiredSessions | crates/sunbolt-control/src/terminal/session_registry.rs:381-414 | exactly the expired sessions are removed, each reported once |
| SessionRegistry.TerminalSessionRegistry.CloseSessionsForNode | crates/sunbolt-control/src/terminal/session_registry.rs:416-443 | exactly the non-terminal sessions of the node are removed, each reported once |
| SessionLife.InsertDecided | crates/sunbolt-control/src/terminal/session_registry.rs:128-173 | which limit refuses an insert, counted over the sessions that are not Terminated, Failed or Expired, and what an accepted one installs |
| SessionLife.MovesExactlyWhen | crates/sunbolt-terminal/src/lib.rs:28-58 | state by state, from which states a session is moved to it |
| SessionLife.LifeOfASession | crates/sunbolt-terminal/src/lib.rs:28-58 | a session that is inserted, made active, detached, reattached to, made active, terminating and terminated takes these states one after the other |
| SessionLife.SessionTimes | crates/sunbolt-control/src/terminal/session_registry.rs:155-270 | a session carries the time of its insert, of its last use, and the size it was last given |
| SessionLife.DrainedExactlyWhen | crates/sunbolt-control/src/terminal/session_registry.rs:381-414 | over every run a drain takes out exactly the sessions that still count and were inserted the maximum duration ago, or are detached and were last used the idle timeout ago |
| SessionLife.ClosedExactlyWhen | crates/sunbolt-control/src/terminal/session_registry.rs:416-443 | closing a node's sessions takes out exactly those of that node that still count |
| SessionLife.RememberedExactlyFor | crates/sunbolt-control/src/terminal/session_registry.rs:291-311 | a message is pushed onto the ring of the session it names, and an output, a notice or an error may name one |
| SessionLife.RecordedExactlyFor | crates/sunbolt-control/src/terminal/session_registry.rs:272-289 | a recorded output gets the session's next number and is pushed onto its ring |
| SessionRuns.StepFollowsTable | crates/sunbolt-terminal/src/lib.rs:28-58 | every observable state change of a surviving session is a table edge, a self-loop or the reattach move |
| SessionRuns.TerminalForever | crates/sunbolt-terminal/src/lib.rs:60-64 | over every run a terminal session never becomes non-terminal |
| SessionRuns.QuotasHold | crates/sunbolt-control/src/terminal/session_registry.rs:128-173 | in every reachable table the total, per-user and per-node limits hold, the absent node being one group, even when an insert overwrites an id |
| SessionRuns.RingHoldsLastMessages | crates/sunbolt-control/src/terminal/session_registry.rs:460-465 | the replay always equals the last 128 messages pushed, and outputs are numbered 1, 2, 3 and so on below the 64-bit limit |
| SessionRuns.PushedOutputsAreNumbered | crates/sunbolt-control/src/terminal/session_registry.rs:272-311 | the outputs among the pushed messages are exactly the numbered ones, in order, when none is remembered from elsewhere |
| SessionRuns.TokensStaySound | crates/sunbolt-control/src/terminal/session_registry.rs:190-218 | with fresh tokens, current tokens are distinct and none of them was ever presented successfully |
| SessionRuns.TokenAdmitsOnce | crates/sunbolt-control/src/terminal/session_registry.rs:190-218 | over every run with fresh tokens a reconnect token admits at most one successful reattach |
| SessionRuns.ReattachIsGuarded | crates/sunbolt-control/src/terminal/session_registry.rs:199-208 | with a fresh token a reattach takes effect exactly for the owner with the current token of a session in a reattachable state, and leaves all others alone |
| SessionRuns.ReattachByOwnerWithLatestToken | crates/sunbolt-control/src/terminal/session_registry.rs:155-208 | over every run a successful reattach is by the actor of the insert that installed the session, and presents the token drawn by that insert or by the latest successful reattach since |
| ReattachProtocol.NextIsGood | crates/sunbolt-control/src/terminal/mod.rs:1686-1694 | what every step of reader, browsers and other tasks keeps of numbering, ring, held message and receivers |
| ReattachProtocol.ReattachLosesNothing | crates/sunbolt-control/src/terminal/mod.rs:1669-1713 | in every interleaving, for a browser that never lags, the outputs of the replay are the recorded messages up to those recorded when it joined, all of them unless the ring was full, and the outputs it gets after it are the recorded ones from there, or from one earlier, up to the last broadcast |
| ReattachProtocol.SeenWithoutGaps | crates/sunbolt-control/src/terminal/mod.rs:1669-1713 | so the numbers it sees are consecutive with at most one repeat, and there is one exactly if it joined between the lock and the broadcast of an output that the ring still held and that has been broadcast since |
| ReattachProtocol.RepeatOnlyInFlight | crates/sunbolt-control/src/terminal/session_registry.rs:206-217 | the first output received is the last one of the replay exactly if that was recorded and not yet broadcast when the browser subscribed, and the next one otherwise |
| LongPoll.LongPollConnection.NextLongPollMessageId | crates/sunbolt-control/src/agent/mod.rs:868-876 | ids are handed out and counted up, saturating at 64 bits |
| LongPoll.LongPollConnection.HandleAgentTransportEnvelope | crates/sunbolt-control/src/agent/mod.rs:974-1019 | a proper ping is answered with its own id, a proper event is appended if fewer than 128 wait and refused as full otherwise, a frame from elsewhere is rejected and forwards nothing |
| LongPollFrames.OutcomeExactlyWhen | crates/sunbolt-control/src/agent/mod.rs:974-1019 | every outcome and every reason to refuse has exactly its frames, the first reason that applies being given |
| LongPollFrames.PongsAnswerPings | crates/sunbolt-control/src/agent/mod.rs:733-749 | the pongs of a response answer exactly the proper pings of the request, in order |
| LongPollFrames.FirstEventsForwarded | crates/sunbolt-control/src/agent/mod.rs:998-1006 | the events forwarded are the first proper ones of the request, as many as 128 leave room for |
| LongPollFrames.CommandsDelivered | crates/sunbolt-control/src/agent/mod.rs:823-845 | a response carries the first commands at hand, those that arrive while it waits included, up to 32 envelopes in all after its hello and replies |
| LongPollFrames.ResponseAddressed | crates/sunbolt-control/src/agent/mod.rs:724-760 | everything sent is addressed to the agent of the connection |
| LongPoll.LongPollConnection.AppendLongPollCommands | crates/sunbolt-control/src/agent/mod.rs:823-845 | the wait for a first command and the loop that fills the response |
| LongPoll.LongPollConnection.HandleLongPollRequest | crates/sunbolt-control/src/agent/mod.rs:724-760 | one poll: hello, a reply for each frame that calls for one, then commands |
| LongPollRuns.PollConserves | crates/sunbolt-control/src/agent/mod.rs:695-766 | no command is lost, repeated or reordered in a poll; the answers are the hello and one reply for each ping and each rejected frame, in order; other frames were forwarded or ignored; at most max(32, 1 + frames) envelopes; full if commands are left |
| LongPollRuns.FramesAddUp | crates/sunbolt-control/src/agent/mod.rs:733-757 | replies, forwarded events and ignored frames add up to the frames |
| LongPollRuns.CommandsConserved | crates/sunbolt-control/src/agent/mod.rs:823-845 | over any series of polls, the commands delivered followed by those queued are the commands sent, in order, once each |
| LongPollRuns.EventsNeverOverflow | crates/sunbolt-control/src/agent/mod.rs:998-1006 | over every series the frame handler never lets the event channel hold more than 128 events |
| LongPollRuns.CommandsNeverOverflow | crates/sunbolt-control/src/agent/mod.rs:823-845 | if at most 128 commands arrive during a waiting poll, no poll makes the command queue longer than its senders may |
| LongPollRuns.IdsCount | crates/sunbolt-control/src/agent/mod.rs:868-876 | over any series of polls the ids of the envelopes are 2, 3, 4 and so on, none skipped, up to saturation |
| LongPollRuns.IdsIncrease | crates/sunbolt-protocol/src/transport.rs:54-57 | ids strictly increase until the largest id, which alone repeats |
| LongPollSteps.StepGood | crates/sunbolt-control/src/agent/mod.rs:695-876 | what every step of polls, senders and receivers keeps: no command or event lost, repeated or reordered, only the holder of the queue's lock having any commands in hand, both channels bounded, ids counted, and in each poll a reply in order for every frame that calls for one |
| LongPollSteps.AlwaysGood | crates/sunbolt-control/src/agent/mod.rs:695-876 | so in every interleaving of overlapping polls, with events taken between frames and any number of commands arriving while a poll drains the queue |
| AgentConnections.AgentConnectionRegistry.EnsureLongPollTransport | crates/sunbolt-control/src/agent/mod.rs:142-181 | a long poll goes on with the registered connection exactly when transport and kind match, else replaces it |
| AgentConnections.AgentConnectionRegistry.DropTransport | crates/sunbolt-control/src/agent/mod.rs:198-217 | a connection is removed exactly when it is the named transport's |
| AgentConnections.ConnectionHasSource | crates/sunbolt-control/src/agent/mod.rs:102-217 | over every run, the connection of a node is the last one installed and not replaced or disconnected since |
| AgentConnections.SourceHasConnection | crates/sunbolt-control/src/agent/mod.rs:102-217 | and whatever was installed and not replaced or disconnected since is still there, unchanged |
| AgentConnections.StaleCleanupIsHarmless | crates/sunbolt-control/src/agent/mod.rs:198-217 | the late cleanup of a replaced transport removes nothing |
| Decimal.PrintInjective | crates/sunbolt-audit/src/chain.rs:21-24 | different numbers are printed differently |
| Hex.EncodeInjective | crates/sunbolt-audit/src/chain.rs:56-65 | different digests have different hexadecimal forms |
| Decimal.PrintReads | crates/sunbolt-audit/src/chain.rs:21-24 | a printed number reads as itself, without leading zeros |
| Hex.EncodedDigits | crates/sunbolt-audit/src/chain.rs:56-65 | each byte is written as its two lower-case digits, the high one first |
| AuditChain.HexSha256 | crates/sunbolt-audit/src/chain.rs:56-65 | the loop writes the hexadecimal form of a digest |
| AuditChain.CanonicalReadable | crates/sunbolt-audit/src/chain.rs:13-26 | for colon-free previous hash and kind, two hashed strings are equal exactly when previous hash, id, kind and time agree and actor, colon and message read the same together |
| AuditChain.CanonicalUniquelyReadable | crates/sunbolt-audit/src/chain.rs:13-26 | for colon-free previous hash, kind and actor, all six fields are read back, however many colons the message holds |
| AuditChain.CanonicalLayout | crates/sunbolt-audit/src/chain.rs:13-26 | what is hashed, in its order: previous hash, id, kind, actor, message and time, joined by colons |
| AuditChain.IntactExactlyWhen | crates/sunbolt-audit/src/chain.rs:5-54 | what makes a log intact, written out: the first event follows sixty-four zeros, every other one the hash of the event before it, and each carries the lower-case hexadecimal digest of its six fields |
| AuditChain.NameInjective | crates/sunbolt-audit/src/types.rs:51-74 | the kinds of audit events have different names |
| AuditChain.VerifyChain | crates/sunbolt-audit/src/chain.rs:34-54 | the loop accepts exactly the logs in which every event is linked to its predecessor and carries the hash of its own fields |
| AuditChain.FinalHashCommits | crates/sunbolt-audit/src/chain.rs:13-54 | two verified logs that end in the same hash have the same length and the same events, up to where actor and message meet, when the hash shows no collision between them and never yields the genesis value |
| AuditChain.FinalHashCommitsToEvents | crates/sunbolt-audit/src/chain.rs:13-54 | and the same actors and messages when no actor holds a colon, an absent actor and an empty one being identified |
| AuditTampering.AlteredAcceptedExactlyWhen | crates/sunbolt-audit/src/chain.rs:34-54 | an altered event is accepted exactly when it has the same content up to where actor and message meet, or is the last one and sealed anew, if the two hashed strings do not collide |
| AuditTampering.AlterationNoticedExactlyWhen | crates/sunbolt-audit/src/chain.rs:29-54 | if an event is not the last one, its actor is not empty or absent, and neither actor nor message holds a colon, every alteration that shows no collision with it is noticed; otherwise some alteration is accepted, whatever the hash |
| AuditTampering.ChangeAcceptedExactlyWhen | crates/sunbolt-audit/src/chain.rs:29-54 | any change of an intact log that keeps the last hash is accepted exactly when it keeps the number of events and their content up to where actor and message meet |
| AuditTampering.ResealedAccepted | crates/sunbolt-audit/src/chain.rs:34-54 | for every sequence of events there is an accepted log with the same fields, linked and sealed anew |
| AuditTampering.ColonInActorIsAmbiguous | crates/sunbolt-audit/src/chain.rs:21-24 | for every intact log, a colon moved from a message to its actor leaves an altered log that is accepted |
| AuditTampering.AbsentActorIsAmbiguous | crates/sunbolt-audit/src/chain.rs:21-24 | for every intact log, an absent actor made an empty one leaves an altered log that is accepted |
| AuditTampering.SealedAnew | crates/sunbolt-audit/src/chain.rs:40-50 | for every event there is another one in its place with the hash of its own fields |
| AuditTampering.RearrangedAcceptedExactlyWhen | crates/sunbolt-audit/src/chain.rs:29-54 | any sequence of events of an intact log, some left out, repeated or moved, is accepted exactly when it is a prefix of the log |
| AuditTampering.ReorderingNoticed | crates/sunbolt-audit/src/chain.rs:29-54 | the events of an intact log are accepted in no other order |
| AuditTampering.DuplicateNoticed | crates/sunbolt-audit/src/chain.rs:29-54 | a copy of an event of an intact log is accepted nowhere in it |
| AuditTampering.RemovalNoticedExactlyWhen | crates/sunbolt-audit/src/chain.rs:29-54 | the removal of consecutive events is noticed exactly when it leaves an event after them |
| AuditTampering.InsertionAcceptedExactlyWhen | crates/sunbolt-audit/src/chain.rs:29-54 | an inserted event is accepted exactly when it is appended, linked and sealed |
| AuditLog.Log.Record | crates/sunbolt-audit/src/log.rs:53-83 | one redacted event is appended and linked; the chain stays intact, ids count from 1, and no stored message has anything left to redact |
| AuditLog.Log.VerifyIntegrity | crates/sunbolt-audit/src/log.rs:104-111 | a log that only `Record` has written always verifies |
| Encoders.Base32Encode | crates/sunbolt-auth/src/totp.rs:232-254 | the loop with its 32-bit buffer, which drops high bits, computes the five-bit grouping of section 6 of RFC 4648 without padding |
| Encoders.Base64UrlEncode | crates/sunbolt-auth/src/passkeys.rs:117-149 | the loop over chunks of three bytes computes the six-bit grouping of section 5 without padding |
| Encoders.BufferShift | crates/sunbolt-auth/src/totp.rs:239-240 | reading a byte into the 32-bit buffer keeps up to 24 pending bits although higher ones are lost |
| Encoders.EncodedLength | crates/sunbolt-auth/src/totp.rs:232-254 | the exact lengths of both encodings |
| Encoders.DecodeUndoesEncode | crates/sunbolt-auth/src/passkeys.rs:117-149 | both encodings are written in their alphabets and decoded to the original bytes, for every byte string |
| Encoders.Base32Alphabet | crates/sunbolt-auth/src/totp.rs:232-254 | the symbols of base32 |
| Encoders.Base64UrlAlphabet | crates/sunbolt-auth/src/passkeys.rs:117-149 | the symbols of base64url |
| Backoff.GrowthIsPower | crates/sunbolt-protocol/src/transport.rs:310-319 | the unbounded growth is the initial delay times a power of the multiplier, zeros counting as one |
| Backoff.DelayForAttempt | crates/sunbolt-protocol/src/transport.rs:310-319 | the saturating loop with its early return equals min(max, max(1, initial) * max(1, multiplier)^n) over unbounded integers |
| Backoff.DelaysBoundedAndMonotone | crates/sunbolt-protocol/src/transport.rs:308-319 | delays never exceed the maximum and never decrease, and are zero only if the maximum is |
| Backoff.MaximumIsReached | crates/sunbolt-protocol/src/transport.rs:310-319 | with a multiplier of at least two the maximum is reached after as many attempts as doublings reach it |
| RateLimiter.SlidingWindowRateLimiter.CheckAndRecord | crates/sunbolt-control/src/rate_limit.rs:32-48 | the queue of each key is what its attempts have made of it, and the decision is recorded |
| RateLimiterRuns.AllowsExactlyWhenRemembered | crates/sunbolt-control/src/rate_limit.rs:37-46 | at every time an attempt is accepted exactly when fewer than the maximum of accepted attempts of its key since the last early one lie in (now - window, now], and, in the early phase, unless the maximum is zero |
| RateLimiterRuns.RuleHoldsExactlyWhen | crates/sunbolt-control/src/rate_limit.rs:37-46 | at every time the decision is the counting rule's exactly unless forgotten attempts make the difference to a full window, and it is the rule's for every maximum exactly when none in the window is forgotten |
| RateLimiterRuns.AllowsExactlyBelowMaximum | crates/sunbolt-control/src/rate_limit.rs:37-46 | so an attempt is accepted exactly when fewer than the maximum of accepted attempts of its key lie in (now - window, now], once one window has passed since every early attempt |
| RateLimiterRuns.WindowsHoldExactlyWhen | crates/sunbolt-control/src/rate_limit.rs:32-48 | over every series no half-open interval of the window's length holds more accepted attempts of a key than the maximum exactly when no attempt of the key meets a window that is full only with the forgotten attempts counted |
| RateLimiterRuns.NoWindowOverflows | crates/sunbolt-control/src/rate_limit.rs:32-48 | no half-open interval of the window's length ever holds more accepted attempts of a key than the maximum, for attempts at least one window past zero |
| RateLimiterRuns.EarlyRuleHoldsExactlyWhen | crates/sunbolt-control/src/rate_limit.rs:38 | in particular, before the clock has run for one window, the decision is the counting rule's exactly while the maximum is not reached or if it is zero |
| RateLimiterRuns.EarlyWindowCanOverflow | crates/sunbolt-control/src/rate_limit.rs:38-42 | two attempts in that phase pass a limiter that admits one |
| RateLimiterRuns.SettledClockCanOverflow | crates/sunbolt-control/src/rate_limit.rs:38-42 | three early attempts let a fourth pass in the same window after that phase, although the limit is two |
| RateLimiterRuns.KeysAreIndependent | crates/sunbolt-control/src/rate_limit.rs:39 | a decision depends on the attempts of its own key alone |
| Routing.InMemoryNodeRouter.SelectRoute | crates/sunbolt-control/src/routing.rs:102-127 | a usable direct route, else the first usable relay, else none; an unhealthy endpoint is never selected |
| Routing.ChoiceUnique | crates/sunbolt-control/src/routing.rs:102-127 | that determines the selected route |
| Routing.InMemoryNodeRouter.RecordSuccess | crates/sunbolt-control/src/routing.rs:129-136 | a success resets the failures of its endpoint |
| Routing.InMemoryNodeRouter.RecordFailure | crates/sunbolt-control/src/routing.rs:138-148 | a failure counts on, and the 8-bit counter stays a function of the history |
| Routing.InMemoryNodeRouter.EndpointHealth | crates/sunbolt-control/src/routing.rs:150-157 | health is told from the failures since the last success: none, one or two, three or more, despite saturation |
| Routing.HealthAfterFailures | crates/sunbolt-control/src/routing.rs:150-157 | from a success on an endpoint is healthy, degraded at its first two failures and unhealthy at its third |
| Routing.OneRelayBounded | crates/sunbolt-control/src/terminal/mod.rs:906-998 | with at most p overlapping opens one relay is selected at most p + 2 times |
| Routing.RelaySelectionsBounded | crates/sunbolt-control/src/terminal/mod.rs:906-998 | k relays are selected at most k * (p + 2) times in all, hence at most 3k times when opens do not overlap |
| Routing.ThenNoRoute | crates/sunbolt-control/src/terminal/mod.rs:906-943 | without a usable direct route an open gets no route exactly when every relay offered has been selected three times |
| Routing.GivenUpForever | crates/sunbolt-control/src/terminal/mod.rs:906-1116 | a direct endpoint with three failures since its last success and no open in flight is never selected again |
| Routing.BoundIsTight | crates/sunbolt-control/src/terminal/mod.rs:906-998 | the bound p + 2 is met for every p of at least one, even if each open reads all health at once |
| NodeRegistry.NodeEnrollmentRegistry.CreateEnrollmentToken | crates/sunbolt-control/src/node.rs:132-157 | a token is stored unused under its hash |
| NodeRegistry.NodeEnrollmentRegistry.EnrollNode | crates/sunbolt-control/src/node.rs:159-220 | unknown, used and expired tokens are refused in this order; else token, node, credential and heartbeat are recorded together |
| NodeRegistry.NodeEnrollmentRegistry.RecordHeartbeat | crates/sunbolt-control/src/node.rs:222-268 | unknown node, revocation, credential and expiry are checked in this order |
| NodeRegistry.NodeEnrollmentRegistry.AuthenticateTransport | crates/sunbolt-control/src/node.rs:270-313 | the same checks for a transport login |
| NodeRegistry.NodeEnrollmentRegistry.RevokeNode | crates/sunbolt-control/src/node.rs:351-368 | a known node is revoked |
| NodeRegistry.NodeEnrollmentRegistry.RotateCredential | crates/sunbolt-control/src/node.rs:370-420 | a credential that names the latest one is added |
| NodeCredentials.EnrolmentDecided | crates/sunbolt-control/src/node.rs:159-220 | over every run a token enrols a node exactly when it was created, has not enrolled one since, and its lifetime has not passed; else it is known why not |
| NodeCredentials.EnrolmentRecorded | crates/sunbolt-control/src/node.rs:180-218 | an accepted enrolment adds a node with what was asked for, one credential and one heartbeat |
| NodeCredentials.ConnectionDecided | crates/sunbolt-control/src/node.rs:222-313 | over every run a heartbeat or login is refused as unknown exactly if the node was never enrolled, as revoked exactly if a revocation of it was accepted, as invalid exactly if the secret was never issued to it, and is else accepted for ninety days after the secret was first issued and expired from then on |
| NodeCredentials.IssuedCredentialAccepted | crates/sunbolt-control/src/node.rs:180-253 | while ids have not wrapped, a credential issued at a step is accepted before ninety days have passed and expired from then on, if its node has not been revoked since and its secret is new |
| NodeCredentials.ConnectionRecorded | crates/sunbolt-control/src/node.rs:255-313 | an accepted heartbeat or login puts its node online, keeps a heartbeat, and changes nothing else but the host |
| NodeCredentials.RotationDecided | crates/sunbolt-control/src/node.rs:370-420 | over every run a rotation is accepted exactly for a node that was enrolled and not revoked |
| NodeCredentials.LatestExactly | crates/sunbolt-control/src/node.rs:488-503 | the credential taken for the latest is the last in the list of those created after none of the others |
| NodeCredentials.TokenIdsCount | crates/sunbolt-control/src/node.rs:132-146 | token ids are counted from one in 64 bits |
| NodeRuns.TokenEnrolsOnce | crates/sunbolt-control/src/node.rs:159-193 | a token hash enrols at most one node for every token created with it, so at most one when hashes are distinct |
| NodeRuns.IdsUniqueExactlyWhen | crates/sunbolt-control/src/node.rs:180-183 | ids and names of nodes are distinct exactly as long as no more than 2^64 were enrolled |
| NodeRuns.RevokedForever | crates/sunbolt-control/src/node.rs:222-420 | whatever happens after a revocation, the node stays revoked and every heartbeat, login and rotation for it is refused and changes nothing |
| NodeRuns.RevokeTakesEffect | crates/sunbolt-control/src/node.rs:351-368 | a revocation takes effect exactly when it is accepted |
| NodeRuns.StatusMoves | crates/sunbolt-control/src/node.rs:222-368 | a node goes online only when an unexpired credential of its own is presented, and is otherwise changed only by a revocation |
| NodeRuns.CredentialsFormAChain | crates/sunbolt-control/src/node.rs:370-420 | with clocks that do not go backwards, each rotated credential names the node's immediately preceding one, back to enrolment, and the last is the one taken for the latest |
| NodeRuns.ChainLink | crates/sunbolt-control/src/node.rs:488-503 | reading such a chain link by link |

## Left out

- Lock poisoning: every `unwrap_or_else(into_inner)` and every refusal on a poisoned lock is left out; a lock is always taken.
- WebSocket, HTTP, JSON, tracing and PTY input and output: only the order of registry and channel calls is kept.
- SHA-256, HMAC and random bytes: parameters; `token_hash` is applied before the model begins.
- `str` functions of the standard library (`find`, `split_at`, `trim_start`, `split_once`, `eq_ignore_ascii_case`): given by their definitions on bytes; Unicode white space is the set of encodings in `RedactionSpec.WhiteLen`.
- Payloads of terminal notices, `transport_status` and the contents of commands: not looked at by the code either.
- The order in which a `HashMap` yields sessions or relays: removed sessions are reported in some order, and relays are offered in some order.
- Remote reattach: after a detach nothing drains an agent's event channel, so the no-gap theorem is about local sessions only.
- A browser that lags past the 64 messages of its broadcast channel loses output; the no-gap theorem excludes it by hypothesis.
- Routing.InMemoryNodeRouter.SelectRoute: reads the health of all endpoints in one step, where the code takes the lock once for each; the bounds on selections do not rely on that, only on the selected relay being usable when it is read.
- LongPoll.LongPollConnection.HandleLongPollRequest: one whole poll at a time, with no event taken during its frames and all commands sent while it waits taken as one sequence; `LongPollSteps` has overlapping polls, events taken in between and commands arriving at any time. A client that drops the connection in the middle of a poll, and the negotiation before the hello, are in neither.
- Secrets.JsonMemberRedacted: string values of one line without double quotes and backslashes; how far any other value reaches is `ValueShapes.ValueForms`, and that it is replaced `Secrets.FirstValueReplaced`.
- LongPollRuns.CommandsNeverOverflow: assumes at most 128 arrivals in one poll, while a queue that is being drained admits more; `LongPollSteps.AlwaysGood` bounds the queue without that.
- NodeRegistry.NodeEnrollmentRegistry.EnrollNode: reads the clock once for each operation, where the code reads it several times under the lock; wall-clock expiry dates and `NodeView` are left out.
- RateLimiter.SlidingWindowRateLimiter.CheckAndRecord: takes the time as a number of ticks since the earliest instant the clock can represent.
- Backoff jitter, attempt limits and resume windows: configuration that the loop does not read.
- TOTP codes, passkey challenges, accounts and RBAC: mostly one branch each.
- Storage, configuration, CSP, CORS, CSRF, the browser interface, `ha.rs` and `mesh.rs`: no logic of this kind.

# Verified model of the detect, alert and block loop

The repository is a network probe with an agent behind it. Captured frames are reassembled per sender and
port until 512 bytes are there, scored by a model or by a signature list, and reported when the score is
above a threshold. The agent drops repeated reports of one address, investigates the rest, and may answer
by blocking the address in a kernel map that an XDP program consults for every frame. A reverse proxy
carries its own copy of the encoding and the scoring. This project models those parts in Dafny and proves
what they guarantee over whole runs.

| file | component |
|---|---|
| `Common.dfy` | bytes, addresses, concatenation, substring search |
| `Ipv4Text.dfy` | dotted-decimal text, both directions |
| `FlowTracker.dfy` | the tracker class and the function it refines |
| `FlowLedger.dfy` | what a run of the tracker does to one key |
| `AlertQueue.dfy` | the monitor: mutex, condition variable, FIFO |
| `AlertDedup.dfy` | one investigation per address and window |
| `Encoding.dfy` | the three tokenizers |
| `Scoring.dfy` | model and heuristic scores |
| `WafRules.dfy` | the proxy's first-match rules |
| `Sniffer.dfy` | the frame callback's guards and fields |
| `DataPlane.dfy` | the capture callback, frame to notification |
| `Cadence.dfy` | when the sweep keeps its promised cadence |
| `Detection.dfy` | whole runs of the data plane |
| `Firewall.dfy` | block tool, kernel map and XDP filter |
| `ClosedLoop.dfy` | filter, data plane, deduplication and block together |

`dafny verify dfyconfig.toml` checks everything.

## How to read it

* Classes (`Tracker`, `Probe`, `AlertDedup`, `AlertListener`, `Kernel`, `SecTools`) change their fields as
  the sources do. Each method's contract ties the new state to a function of the old one, and the lemmas
  prove what whole runs of those functions do. The alert queue is a machine whose steps are the atomic
  actions of its threads.
* An IPv4 address is the four bytes it occupies in memory; `s_addr`, `saddr` and the map key are that value.
* The steady clock counts nanoseconds, so a timeout of 60 seconds is 60,000,000,000. Clock readings, the
  outcome of `open`, of the map update and of iptables, and the choice of the thread that a notify wakes are
  inputs. No clock is assumed to be monotone; where a result needs a bound on how far one falls back, the exact
  bound is proved.
* The heuristic configuration is the probe without a model and with 0.05 <= threshold < 0.99, where scores mean
  signatures (`ThresholdIsExact`). Results for every model and threshold speak of hot senders: those with an
  emitted segment that scores above the threshold. A sender with a signature in an emitted segment is convicted.
* The network is any function from ids and mask to logits or to failure. `exp` is any positive function that
  turns sums into products. Scores are reals.
* `inet_ntop` and `inet_pton` follow section 6.3 of RFC 3493. A superfluous leading zero is refused, as the
  GNU C library does; the printer never writes one, so no round trip depends on it.
* The filter stands before the capture, as `doc/architecture/data_plane.md:352` says: a dropped frame never
  reaches the sniffer.

## Where the code and its descriptions differ

* `src/main.cpp:99` and the documentation say that stale flows are swept every 1000 packets. The callback
  returns before the counter when no payload is ready, so the sweep runs every 1000 payloads
  (`SweepsFollowEmissions`). The promised cadence holds if and only if every frame of each complete thousand
  delivered has 512 bytes by itself (`PacketCadenceExactly`); a port scan never brings a sweep
  (`PacketsAloneNeverSweep`).
* `MAX_FLOW_BUFFER` is described as the largest buffer. No reachable buffer holds even 512 bytes between
  calls, and the guard never drops a packet (`GuardNeverFails`).
* `scripts/tests/test_waf.py:77-95` expects the ids 101, 102 and byte + 200 of the proxy's tokenizer. The
  code uses 1, 2 and byte + 3, the other vocabulary is that of `Tokenizer::encode`, and the two are
  renamings of each other, equal for no payload (`VocabulariesAgree`).
* The rule list looks like one threshold, but `wget ` and `curl ` score 0.95, which does not block, and they
  stand before `base64 -d`. So adding text can unblock a request (`EmbeddingCanUnblock`): a text is blocked in
  every embedding if and only if it contains one of the first seven signatures (`BlocksEverywhereExactly`).
* The comment on the deduplication promises one investigation per window. With pruning this holds for every
  run whose clock falls back by at most nine windows, and for no larger tolerance (`SpacingIsExact`). The
  same bound decides whether pruning ever changes a decision (`ToleranceIsExact`), whether the rate of
  investigations stays bounded (`RateIsExact`) and whether every acceptance is due (`JustificationIsExact`). The
  reading is taken before the lock, so readings can be out of order even when the clock is not. That no reported
  address starves needs no bound at all (`InvestigatedExactly`).
* `block` answers success for the iptables fallback too (`src/mcp_server/tools/sec_tools.cpp:73-77`). The XDP
  program and the capture do not consult iptables: a sender is silenced if and only if the kernel map holds its
  address (`SilencedExactly`, `BlockSilencesExactly`).
* The probe takes the class count from the second dimension of the output (1 without one), the proxy from the
  number of logits. They score every tensor of a shape alike if and only if the counts agree
  (`ScoresAlikeExactly`).

## Model

| member | source | states |
|---|---|---|
| `FlowTracker.Tracker.ProcessPacket` | src/capture/flow_tracker.cpp:5-20 | the packet is appended below 4096 bytes; from 512 bytes on the buffer is returned and the key leaves the map, else nothing is returned and the entry holds buffer and clock reading; no other key changes |
| `FlowTracker.Tracker.CleanupStale` | src/capture/flow_tracker.cpp:22-32 | erasing while iterating, in any order, keeps exactly the flows seen within the timeout |
| `FlowLedger.TrackerRefinesLedger` | src/capture/flow_tracker.cpp:5-32 | for every interleaving, the buffer of a key and the buffers that left the map are those of a per-key ledger without map, guard or other keys |
| `FlowLedger.LedgerIsGreedy` | src/capture/flow_tracker.cpp:13-17 | the ledger cuts the key's own packets, in order and without loss; each emission is the shortest run of whole packets that reaches 512 bytes |
| `FlowLedger.Conservation` | src/capture/flow_tracker.cpp:5-32 | emitted, evicted and still-held bytes, in order, are the bytes fed for the key |
| `FlowLedger.GreedyIsUnique` | src/capture/flow_tracker.cpp:13-17 | a packet list has no more than one greedy segmentation without evictions |
| `FlowLedger.EmissionsAreTheGreedySegmentation` | src/capture/flow_tracker.cpp:5-20 | in a run without sweeps the payloads returned for a key are that segmentation |
| `FlowLedger.NonInterference` | src/capture/flow_tracker.cpp:5-32 | taking the other keys' packets out of a run changes neither the outputs nor the state of a key |
| `FlowLedger.GuardNeverFails` | src/capture/flow_tracker.cpp:9-11 | every reachable buffer is below 512 bytes, so the 4096-byte guard never discards a packet |
| `FlowLedger.PayloadIffReady` | src/capture/flow_tracker.cpp:13-19 | a returned payload is non-empty exactly when it has 512 bytes, and exactly then the key has left the map |
| `FlowLedger.SweepErasesExactlyTheIdle` | src/capture/flow_tracker.cpp:22-32 | after any run a sweep erases a key exactly when its latest packet is older than the timeout, and keeps the others' state |
| `FlowLedger.SweepBoundsTheMap` | src/capture/flow_tracker.cpp:22-32 | right after a sweep there are no more flows than keys heard from within the timeout |
| `FlowLedger.SegmentBound` | src/capture/flow_tracker.cpp:9-16 | packets of 34 bytes or more: at most 16 to a segment, and an emission of 512 to 511 + largest bytes |
| `AlertQueue.InvHolds` | src/core/alert_queue.hpp:15-27 | mutual exclusion, FIFO accounting and the wakeup count hold in every reachable state of any number of threads |
| `AlertQueue.NoLostWakeup` | src/core/alert_queue.hpp:15-27 | while a consumer sleeps and no notify is pending, the queue is no longer than the number of consumers awake in pop |
| `AlertQueue.FifoExactlyOnce` | src/core/alert_queue.hpp:15-27 | alerts are returned in push order, each once; with the mutex free, pushed = returned + queued |
| `AlertQueue.AppendsItsCall` | src/core/alert_queue.hpp:15-18 | the one step that appends puts at the back, unaltered, the alert its own thread called push with |
| `AlertQueue.PushedIsCalled` | src/core/alert_queue.hpp:15-18 | in every reachable state each alert was appended, or is still carried in push, exactly as often as push was called with it |
| `AlertQueue.EveryAlertIsSomewhere` | src/core/alert_queue.hpp:15-27 | each alert is returned, about to be, queued or carried, exactly as often as push was called with it |
| `AlertQueue.MutualExclusion` | src/core/alert_queue.hpp:16-22 | at most one thread is between lock and unlock |
| `AlertQueue.TakeFindsAnAlert` | src/core/alert_queue.hpp:23-25 | front() is never called on an empty queue, spurious wakeups included |
| `AlertQueue.SomeThreadCanMove` | src/core/alert_queue.hpp:15-27 | no deadlock: unless every thread is outside or asleep, one can step |
| `AlertQueue.AnyCallCanCome` | src/core/alert_queue.hpp:15-27 | in any state a thread outside may call push with any alert, or pop; a sleeper may wake by itself; and a thread that wants the mutex may take it exactly when it is free |
| `AlertQueue.AdvanceUsesWork` | src/core/alert_queue.hpp:15-27 | every step but a call or a spurious wakeup lowers a bounded measure |
| `AlertQueue.SettledStrandsNothing` | src/core/alert_queue.hpp:18-23 | when nothing can step, no alert is queued while a consumer sleeps |
| `AlertQueue.EventuallyDelivered` | src/core/alert_queue.hpp:15-27 | from any reachable state the threads' own steps lead to such a state |
| `AlertQueue.SettledReturnsTheFirst` | src/core/alert_queue.hpp:15-27 | when nothing can step, the alerts returned are the first min(calls of push, calls of pop) of those pushed, in push order |
| `AlertQueue.SettledReturnsOrKeeps` | src/core/alert_queue.hpp:15-27 | when nothing can step, the alerts returned and those queued are, as multisets, those of the calls of push |
| `AlertQueue.SettledReturnsTheCalled` | src/core/alert_queue.hpp:15-27 | with at least as many calls of pop, exactly the alerts of the calls of push have come back |
| `AlertQueue.EveryCallIsServed` | src/core/alert_queue.hpp:15-27 | from any reachable state the threads' own steps lead to a state where that many alerts of the calls made so far are returned |
| `AlertDedup.AlertDedup.ShouldProcess` | scripts/multi_agent_soc.py:29-39 | the answer and the pruned dictionary after the call |
| `AlertDedup.AlertListener.DedupCallback` | scripts/multi_agent_soc.py:138-144 | an alert is passed on exactly when should_process accepts its address |
| `AlertDedup.WithinTolerance` | scripts/multi_agent_soc.py:29-39 | while the clock falls back at most nine windows, the pruned dictionary decides like one that never forgets |
| `AlertDedup.PartingDisagrees` | scripts/multi_agent_soc.py:36-38 | for every larger regress, a run of at most three alerts on which they differ |
| `AlertDedup.ToleranceIsExact` | scripts/multi_agent_soc.py:29-39 | all runs within a tolerance agree if and only if the tolerance is at most nine windows |
| `AlertDedup.AcceptancesAreSpaced` | scripts/multi_agent_soc.py:32-35 | within nine windows of regress, accepted alerts of one address are at least a window apart |
| `AlertDedup.SpacingIsExact` | scripts/multi_agent_soc.py:22-39 | all runs within a tolerance space the acceptances of an address a window apart if and only if the tolerance is at most nine windows |
| `AlertDedup.HoldsExactlyTheHeld` | scripts/multi_agent_soc.py:32-38 | for every clock and window: the dictionary's entries are exactly the accepted readings whose address was not accepted again and which no accepted reading since lies ten windows ahead of |
| `AlertDedup.RejectsExactly` | scripts/multi_agent_soc.py:32-34 | for every clock and window: a call is rejected if and only if such a reading lies less than a window back, or there is none for the address and the reading is below the window |
| `AlertDedup.RejectionPointsBack` | scripts/multi_agent_soc.py:32-34 | for every clock: a rejection points to an acceptance of the address less than a window before, or its reading is below the window |
| `AlertDedup.InvestigatedExactly` | scripts/multi_agent_soc.py:29-39 | for every clock: an address is investigated if and only if some alert for it is read at least one window past the epoch |
| `AlertDedup.RejectionsAreJustified` | scripts/multi_agent_soc.py:32-34 | within nine windows of regress, an alert is rejected if and only if the address was accepted less than a window before, or was never accepted and the reading is below the window |
| `AlertDedup.JustificationIsExact` | scripts/multi_agent_soc.py:22-39 | that holds for all runs within a tolerance if and only if the tolerance is at most nine windows |
| `AlertDedup.RateLimit` | scripts/multi_agent_soc.py:29-39 | within nine windows of regress, an interval of length L holds at most floor(L / window) + 1 acceptances of one address |
| `AlertDedup.RateIsExact` | scripts/multi_agent_soc.py:22-39 | for a positive window, all runs within a tolerance keep that rate for every address and interval if and only if the tolerance is at most nine windows |
| `Ipv4Text.ParseExactlyPrinted` | src/mcp_server/tools/sec_tools.cpp:50-56 | a text parses to an address if and only if, up to its first NUL, it is that address printed |
| `Ipv4Text.TextExactly` | src/mcp_server/tools/sec_tools.cpp:50-56 | the text of an address is the decimal numerals of its four bytes, the first byte first, with dots between; a text parses to the address if and only if it is such a text up to its first NUL |
| `Ipv4Text.CStringExactly` | src/mcp_server/tools/sec_tools.cpp:51 | what c_str() shows is the longest prefix without a NUL |
| `Ipv4Text.RoundTrip` | src/capture/pcap_sniffer.hpp:44-45 | parsing the printed form returns the address, for all 2^32 of them |
| `Ipv4Text.PrintInjective` | src/capture/pcap_sniffer.hpp:44-45 | different addresses print differently |
| `Sniffer.SerialisedIsDelivered` | src/capture/pcap_sniffer.hpp:30-51 | every well-formed TCP/IPv4 frame, with any IP options, is delivered whole under its own source address and destination port |
| `Sniffer.SniffExactly` | src/capture/pcap_sniffer.hpp:31-50 | over the bytes: a frame is delivered if and only if it has 34 bytes, EtherType 8 and 0, protocol 6 and 20 bytes behind the header length it claims, however short; then whole, with the address of bytes 26 to 29 and the port behind that header |
| `Sniffer.DeliveredExactly` | src/capture/pcap_sniffer.hpp:31-40 | a frame is delivered with a legal header length if and only if it is a well-formed TCP/IPv4 frame, serialised |
| `Sniffer.DeliveredIsCompleteIpv4` | src/capture/pcap_sniffer.hpp:31-50 | a delivered frame has at least 34 bytes, passes the XDP program's tests, and its source text parses to the address that program reads |
| `Encoding.EncodingExactly` | src/inference/onnx_engine.cpp:50-68 | 512 tokens: CLS 1, then the first min(n, 510) bytes plus 3, SEP 2, zeros; the mask is 1 on the first min(n + 2, 512) positions |
| `Encoding.FillByIndex` | src/inference/onnx_engine.cpp:50-68 | the in-place fill writes CLS, bytes, SEP and the mask, and leaves what lies past SEP |
| `Encoding.TokenizeFresh` | src/inference/onnx_engine.cpp:74-75 | on new vectors it yields the 512 ids and the mask |
| `Encoding.EncodeByPushBack` | src/capture/tokenizer.cpp:4-24 | the push_back tokenizer yields the same encoding in its own vocabulary: 101 first, bytes plus 200, 102, zeros |
| `Encoding.TokenizeByLists` | waf/waf_proxy.py:45-53 | the list tokenizer yields the ids and mask of the index tokenizer |
| `Encoding.VocabulariesAgree` | src/capture/tokenizer.cpp:8-21 | its tokens are the engine's ids under a renaming that is injective on tokens, and never those ids |
| `Encoding.VocabulariesDistinguishAlike` | src/capture/tokenizer.cpp:4-24 | both vocabularies tell the same payloads apart |
| `Encoding.TokensReadBack` | src/inference/onnx_engine.cpp:54-67 | reading up to SEP recovers the first min(n, 510) bytes |
| `Encoding.SameIdsIffSamePrefix` | src/inference/onnx_engine.cpp:57-67 | two payloads encode equally if and only if those prefixes are equal |
| `Encoding.MaskEndsAtTheOnlySep` | src/inference/onnx_engine.cpp:54-67 | there is one SEP, and the mask is 1 exactly up to it |
| `Encoding.ReadyPayloadFillsTheInput` | src/inference/onnx_engine.cpp:57-67 | 512 bytes or more leave no padding, and bytes from 510 on are not seen |
| `Scoring.MaxElement` | src/inference/onnx_engine.cpp:105 | the largest logit |
| `Scoring.SoftmaxTail` | src/inference/onnx_engine.cpp:104-108 | the max-shift loop returns the unshifted softmax of the last class |
| `Scoring.ShiftedDenominator` | src/inference/onnx_engine.cpp:105-107 | its denominator is at least 1 |
| `Scoring.SumExpIsTheSum` | src/inference/onnx_engine.cpp:106-107 | the denominator is a sum: of no logit 0, of one its exponential, of two lists the sum of both |
| `Scoring.ShiftKeepsSoftmax` | src/inference/onnx_engine.cpp:105-108 | shifting every logit alike leaves the softmax as it was |
| `Scoring.SoftmaxIsTheShare` | src/inference/onnx_engine.cpp:104-108 | times that sum it is the exponential of the last logit |
| `Scoring.TwoClassesAreSigmoid` | src/inference/onnx_engine.cpp:100-108 | for two classes it is the sigmoid of the logit difference |
| `Scoring.RunModelInference` | src/inference/onnx_engine.cpp:70-114 | -1 on failure; the sigmoid of the first logit when the tensor has rank below two or one column; else the softmax of the last of dimension 1's logits |
| `Scoring.ClassesAreColumns` | src/inference/onnx_engine.cpp:96-109 | the same of any output, the dimension written out |
| `Scoring.RowIsSoftmax` | src/inference/onnx_engine.cpp:96-109 | a row of two or more logits scores the softmax of all of them, whatever the number of rows says |
| `Scoring.TwoLogitsInARow` | src/inference/onnx_engine.cpp:96-109 | two logits a, b of shape [1, 2] score 1 / (1 + exp(-(b - a))) |
| `Scoring.HeuristicScore` | src/inference/onnx_engine.cpp:116-129 | 0.99 if and only if one of the eleven texts, written out, stands in the payload, else 0.05 |
| `Scoring.SignatureExactly` | src/inference/onnx_engine.cpp:118-121 | a payload has a signature if and only if one of those texts stands in it with something before and after |
| `Scoring.Infer` | src/inference/onnx_engine.cpp:131-135 | the heuristic answers exactly when the model fails |
| `Scoring.InferExactly` | src/inference/onnx_engine.cpp:131-135 | the score is the model's, and if the model fails 0.99 or 0.05 by those texts |
| `Scoring.ModelScoreRange` | src/inference/onnx_engine.cpp:100-113 | -1 means failure and nothing else; a model's score lies in (0, 1] |
| `Scoring.InferIsAProbability` | src/inference/onnx_engine.cpp:131-135 | the answer is always between 0 and 1 |
| `Scoring.ModelIgnoresTheTail` | src/inference/onnx_engine.cpp:57-67 | bytes from 510 on never change a model's answer |
| `Scoring.ThresholdIsExact` | src/main.cpp:83-84 | without a model, "above the threshold" means "contains a signature" for all payloads if and only if 0.05 <= threshold < 0.99 |
| `Scoring.OnnxScore` | waf/waf_proxy.py:56-76 | the proxy's score: sigmoid of one logit, softmax of all, or -1 |
| `Scoring.ScoresAlikeExactly` | src/inference/onnx_engine.cpp:97-108 | for n logits and a non-constant exp, probe and proxy score every tensor of a shape alike if and only if its class count is n |
| `Scoring.ProxyAgreesOnOneRow` | waf/waf_proxy.py:65-73 | the agreeing side for one payload |
| `Scoring.ProxyDiffersOnRankOne` | src/inference/onnx_engine.cpp:97-103 | the smallest witness of the other side: two logits in a tensor of rank one |
| `WafRules.AiThreatDetection` | waf/waf_proxy.py:97-111 | the score of the first of the ten texts, written out in order with their scores, that stands in the lowered text; else the model's, else 0.01 |
| `WafRules.ScoreExactly` | waf/waf_proxy.py:84-111 | the quantified form and the written-out form of that score are the same |
| `WafRules.Lower` | waf/waf_proxy.py:99 | A to Z move by 32 and every other character stays |
| `WafRules.CaseIsIgnored` | waf/waf_proxy.py:99-103 | texts that differ only in the case of letters hit the same signatures |
| `WafRules.HitSurvivesEmbedding` | waf/waf_proxy.py:99-103 | a signature stays found in any longer text |
| `WafRules.EmbeddingLowersTheFirstHit` | waf/waf_proxy.py:102-104 | surrounding a text can only lower the index of the first hit |
| `WafRules.BlocksExactly` | waf/waf_proxy.py:84-128 | the exact condition for a 403 |
| `WafRules.FirstSevenBlockEverywhere` | waf/waf_proxy.py:84-91 | one of the first seven signatures blocks however it is embedded, whatever the model says |
| `WafRules.BlocksEverywhereExactly` | waf/waf_proxy.py:84-128 | a text is blocked in every embedding, whatever the model, if and only if it contains one of the first seven signatures |
| `WafRules.EmbeddingCanUnblock` | waf/waf_proxy.py:92-104 | the witness: a blocked text that is let through with "wget " in front |
| `DataPlane.Probe.OnPacket` | src/main.cpp:71-103 | the callback's whole effect: flows, counter, notifications, sweep |
| `DataPlane.Probe.OnFrame` | src/capture/pcap_sniffer.hpp:30-51 | a captured frame is ignored or handed to the callback |
| `DataPlane.DeliverExactly` | src/main.cpp:80-102 | one packet from any state: below 512 bytes it is held with its own clock reading; else its key leaves, the score is reported if above the threshold, and every 1000th payload erases the flows idle for over 60,000,000,000 ns at the second reading |
| `DataPlane.KeyForPrinted` | src/main.cpp:73-78 | a frame is filed under its own source address and destination port, protocol 6 and zeros elsewhere |
| `DataPlane.KeyForRefused` | src/main.cpp:73-78 | a text that is no address is filed under 0.0.0.0, and the port modulo 65536 |
| `DataPlane.PlaneReplays` | src/main.cpp:80-102 | the plane's flows are the run of the calls it makes on the tracker |
| `DataPlane.InferenceInputIsFull` | src/main.cpp:80-83 | every payload that reaches inference fills the model's input, without padding |
| `DataPlane.SweepsFollowEmissions` | src/main.cpp:81-102 | the sweep has run exactly floor(emissions / 1000) times |
| `DataPlane.SweepBoundsThePlane` | src/main.cpp:100-102 | right after it the flows number at most the keys heard from in 60 seconds |
| `Cadence.RunIsCounted` | src/main.cpp:80-100 | payloads number at most the frames delivered, and as many only if every frame is large |
| `Cadence.PacketCadenceExactly` | src/main.cpp:99-102 | the sweep has run once per 1000 frames delivered after every prefix of a run if and only if each frame of the complete thousands has 512 bytes |
| `DataPlane.PacketsAloneNeverSweep` | src/main.cpp:99-102 | a family far from it: n frames to n ports leave n flows and no sweep, for every n up to 65536 |
| `Detection.RunKeepsStep` | src/main.cpp:71-103 | frames, tracker calls and notifications of a sender stay in step over every run |
| `Detection.NotificationsAreScoredSegments` | src/main.cpp:80-97 | for any model and threshold: a sender's frames are segmented greedily, and its notifications are the scores above the threshold of the emitted segments, in order, one each |
| `Detection.EmissionReportsIffAbove` | src/main.cpp:83-97 | for any model and threshold: a segment writes its notification, with its score and at its place, if and only if it was emitted and scores above the threshold |
| `Detection.EmissionReportsIffSignature` | src/main.cpp:83-97 | without a model and with 0.05 <= threshold < 0.99: if and only if it was emitted and contains a signature, with score 0.99 |
| `Detection.NoSignatureMissed` | src/inference/onnx_engine.cpp:116-135 | without a model and with 0.05 <= threshold < 0.99: any signature in a sender's bytes lies in a reported payload, or straddles a cut, or was evicted, or is still held |
| `Detection.CoveredExactlyWhenEmitted` | src/main.cpp:83-97 | without a model and with 0.05 <= threshold < 0.99: an occurrence inside a segment is inside a reported payload if and only if the segment was emitted |
| `Detection.FrameSignatureReported` | src/capture/flow_tracker.cpp:9-19 | without a model and with 0.05 <= threshold < 0.99: a signature inside one frame is lost to no cut: unless still held, its frame lies in a segment that is reported exactly when it was not evicted |
| `Detection.OccurrenceTakesOneFrame` | src/main.cpp:80 | the bytes of a signature occurrence that lie behind Ethernet and IPv4 headers all lie in one frame, so a signature split over the payloads of two frames is never joined |
| `Detection.EveryNotificationHasItsSegment` | src/main.cpp:84-96 | a notification a run writes comes from an emitted segment of the sender it names, with that segment's score |
| `Detection.NotesAreAttributed` | src/main.cpp:85-95 | every notification names the address and port of some sender |
| `Detection.NamedExactlyWhenHot` | src/main.cpp:83-97 | for any model and threshold: a sender is named in a notification if and only if an emitted segment of its own scores above the threshold |
| `Detection.HotIffConvicted` | src/inference/onnx_engine.cpp:116-135 | without a model and with 0.05 <= threshold < 0.99: the hot senders are the convicted ones |
| `Detection.NamedExactlyWhenConvicted` | src/main.cpp:83-97 | without a model and with 0.05 <= threshold < 0.99: a sender is named in a notification if and only if an emitted segment of its own contains a signature |
| `Detection.SegmentsAreShort` | src/capture/flow_tracker.cpp:9-16 | a flow is cut by its 16th frame, and payloads have 512 to 511 + largest frame bytes |
| `Firewall.Kernel.MapUpdate` | src/mcp_server/tools/sec_tools.cpp:16-23 | overwrites an entry, or adds one while the map has fewer than 100000 |
| `Firewall.Kernel.XdpFirewall` | src/ebpf/xdp_filter.c:15-41 | a frame is dropped if and only if it has 34 bytes, bytes 12 and 13 are 8 and 0 and bytes 26 to 29 are in the map, whatever its protocol; a drop adds 1 to that entry modulo 2^32 and a pass changes nothing |
| `Firewall.FilterExactly` | src/ebpf/xdp_filter.c:15-41 | the same of the whole host, whose rules stay |
| `Firewall.SecTools.IptablesBlock` | src/mcp_server/tools/sec_tools.cpp:26-44 | one rule is appended, or none |
| `Firewall.SecTools.ExecuteTool` | src/mcp_server/tools/sec_tools.cpp:46-82 | success by ebpf_xdp sets the address's entry to 1 and nothing else, success by iptables_fallback appends the text to the rules and nothing else, any other answer changes nothing |
| `Firewall.AnswersMean` | src/mcp_server/tools/sec_tools.cpp:61-81 | for the text of an address: which conditions give which answer and host |
| `Firewall.RulesAreTheFallbacks` | src/mcp_server/tools/sec_tools.cpp:26-44 | after any run the rules are, in order, the texts of the calls answered iptables_fallback: none is ever removed |
| `Firewall.InvalidIffNoAddress` | src/mcp_server/tools/sec_tools.cpp:47-54 | a call is refused if and only if its text is no address, a missing one included, and then changes nothing |
| `Firewall.BlacklistIsWhatWasWritten` | src/ebpf/xdp_filter.c:32-37 | the map holds exactly the addresses that were answered success by ebpf_xdp |
| `Firewall.DropsExactly` | src/ebpf/xdp_filter.c:15-41 | over the bytes of any run's frames: dropped if and only if 34 bytes, EtherType 8 and 0, and bytes 26 to 29 were written before, whatever the counter has wrapped to |
| `Firewall.CounterCountsDrops` | src/ebpf/xdp_filter.c:34-38 | a map value is 1 plus the drops since the last write, modulo 2^32 |
| `Firewall.MapStaysBounded` | src/ebpf/xdp_filter.c:7-12 | the map never holds more than 100000 entries |
| `ClosedLoop.HalvesOfTheLoop` | src/ebpf/xdp_filter.c:32-40 | the loop is the firewall run beside the data plane fed with what passes |
| `ClosedLoop.ArrivalExactly` | src/ebpf/xdp_filter.c:15-41 | over the bytes: a frame whose source is in the map leaves the data plane as it was, any other is received by it and leaves the host as it was |
| `ClosedLoop.CallExactly` | src/mcp_server/tools/sec_tools.cpp:46-82 | a call of block leaves the data plane as it was |
| `ClosedLoop.BlockedSenderIsSilent` | src/mcp_server/tools/sec_tools.cpp:61-69 | after success by ebpf_xdp every later complete frame of the sender is dropped, none reaches the tracker, no notification names it again |
| `ClosedLoop.SilencedExactly` | src/ebpf/xdp_filter.c:32-40 | at any point of a run a sender is silent from then on, whatever happens, if and only if the map holds its address |
| `ClosedLoop.ReportIsInvestigated` | scripts/multi_agent_soc.py:138-144 | for every clock: a report read past the first window of the epoch is investigated, or its address was less than a window before |
| `ClosedLoop.InvestigatedExactlyWhenHot` | scripts/multi_agent_soc.py:138-144 | for any model, threshold and clock: an address is investigated if and only if its sender is hot and some alert for it is read past the first window of the epoch |
| `ClosedLoop.AskedIsWritten` | src/mcp_server/tools/sec_tools.cpp:46-69 | the source text of a notification, passed unchanged to block, becomes the key the filter looks up if and only if the map opens, may be updated and has room |
| `ClosedLoop.BlockSilencesExactly` | src/mcp_server/tools/sec_tools.cpp:46-82 | a call of block leaves a sender silenced if and only if the map had its address, or the text is its address and the map opens, may be updated and is not full |
| `ClosedLoop.SilencesExactlyTheHot` | src/ebpf/xdp_filter.c:32-40 | when the agent blocks only addresses reported to it, the silenced senders are exactly those that were hot before the map took their address, for any model and threshold |
| `ClosedLoop.DropsExactlyTheHot` | src/ebpf/xdp_filter.c:32-40 | behind such an agent a frame is dropped if and only if it is complete IPv4 from such a sender, for any model and threshold |
| `ClosedLoop.HotLasts` | src/main.cpp:83-97 | for any model and threshold: a hot sender stays one for the rest of the run |
| `ClosedLoop.HotLeadsToSilence` | src/main.cpp:83-97 | the whole loop, for any model, threshold, clock and outcome of the system calls: such an agent may block a sender if and only if the sender is hot; its address is investigated if and only if moreover some alert for it is read past the first window of the epoch; the block silences it if and only if the map takes it |
| `ClosedLoop.SignatureIsInvestigated` | src/main.cpp:83-97 | without a model and with 0.05 <= threshold < 0.99: an address is investigated if and only if its sender has a signature in an emitted segment and some alert for it is read past the first window of the epoch |
| `ClosedLoop.ConvictionLasts` | src/main.cpp:83-97 | without a model and with 0.05 <= threshold < 0.99: a sender with a signature in an emitted segment stays one for the rest of the run |
| `ClosedLoop.DropsExactlyTheConvicted` | src/ebpf/xdp_filter.c:32-40 | without a model and with 0.05 <= threshold < 0.99: behind an agent that blocks only addresses reported to it, a frame is dropped if and only if it is complete IPv4 and its source had a signature in an emitted segment before it was blocked |
| `ClosedLoop.SignatureLeadsToSilence` | src/main.cpp:83-97 | without a model and with 0.05 <= threshold < 0.99: the whole loop again, with a signature in an emitted segment in place of being hot |

## Left out

- ToleranceIsExact: stated, like the other results with a tolerance, for windows of zero or more (`RateLimit`, `RateIsExact`: positive); a negative `AEGIS_DEDUP_WINDOW` has no meaning as a window.
- GreedyIsUnique: stated without evictions, whose places the sweeps' clock readings decide; `SweepErasesExactlyTheIdle` says when they happen.
- ReportIsInvestigated: the reading is at least one window after the epoch, because a missing entry reads as 0.0 there; `InvestigatedExactly` says that it must be.
- AlertQueue: a machine of atomic steps, not a class, because its threads interleave; the memory order of the mutex is taken as given.
- Interleaving of the agent's threads inside should_process: the lock makes it one step, and the order of the readings is the order of the lock.
- DeliveredExactly: says nothing about header lengths below five words, which the sniffer does not refuse; `SniffExactly` says what it then takes for the port.
- Floating point rounding, NaN and overflow of the counters `pkt_count` and `fill`: scores are reals, counters are natural numbers.
- Unicode: lowering is ASCII, and the proxy's text comes with its UTF-8 form as a second input.
- The network itself, loading the session, FAISS, the language model and the graph of agents: the network is any function, and what the agent decides is any sequence of block calls; `DropsExactlyTheHot` and `HotLeadsToSilence` take it to block reported addresses only.
- A tensor shape whose class count is zero or exceeds the logits: the library never returns one.
- `std::hash` of `FlowKey` and the iteration order of `std::unordered_map`: the flows are a finite map, and the sweep is proved for every order.
- libpcap, `bpf(2)`, fork and iptables themselves: frames, success bits and an appended rule stand for them.
- An `ip` argument that is not a JSON string: the JSON library throws there.
- `src/ebpf/xdp_loader.cpp`: nothing but library calls; the map may open or not.
- `src/mcp_server/tools/net_tools.cpp`, `os_tools.cpp`, the MCP server, proxy forwarding, logging and environment parsing.

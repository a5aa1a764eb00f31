# SSHMAP core in Dafny

SSHMAP maps how SSH access spreads through a network. It tries credentials against a host and port, keeps the credentials that worked, records every attempt in a ledger, and reuses connections found on earlier runs. It also chains sessions through jump hosts and pushes notifications about what it finds. This project models the parts of SSHMAP that decide what happens, and proves what they promise:

- **Brute-force engine** (`bruteforce.dfy`, module `BruteForce`). Each login attempt ends in one of three ways: success, plain failure, or a lost connection that is retried.
  - Retries happen in rounds, with a per-credential cap.
  - Credentials the ledger has already seen are filtered out.
  - Every attempt that returns is recorded.
  - At the end, the engine falls back to old connections that no fresh success reached.
  - What the attempts leave in the credential store and the session manager is given by `StoreAll` and `RegisterAll`. `StoreAll` applies `store` to every credential whose connect succeeded. `RegisterAll` applies `add_session` to the credentials whose attempt succeeded. Both follow the order of the attempts.
- **Session chain cache** (`session_manager.dfy`, `SessionManager`). Sessions are cached by (hostname, user, method, credential). `get_session` walks a path hop by hop, reusing live sessions. It gives up at the first connect that answers false. An exception from `is_connected()` or `connect()` escapes it.
- **Randomised work queue** (`random_queue.dfy`, `RandomQueue`). `get` takes an element from any position. `task_done` and `join` do the unfinished-task accounting.
- **Credential store** (`credential_store.dfy`, `CredentialStore`). An append-only list with a five-field duplicate check, read through filtered views.
- **Attempt ledger** (`attempt_store.dfy`, `AttemptStore`). An append-only table of attempts, with two set-valued queries keyed by (source, ip, port).
- **Helpers** (`utils.dfy`, `Utils`, on top of `ipv4.dfy`, `IPv4`):
  - target-list expansion;
  - the subnet test and host enumeration;
  - netmask bit counting;
  - proxy scheme and port selection;
  - parsing of `ip addr` and `ifconfig` output;
  - the bounded hostname retry.
- **Notifier** (`notifier.dfy`, `Notifier`):
  - settings normalisation and the enable rule;
  - the dedup gate (30 ticks, pruning after 300);
  - the headers of a push;
  - the notifications the event helpers build.

Shared helpers: `text.dfy` has Python's `strip`, `split`, `splitlines`, `join` and `in`. `decimal.dfy` has `str(int)` and `int(str)`. `wrappers.dfy` has `Option`.

The SSH layer is abstract. Parameters supply:
- what connecting a session gives, an exception included;
- whether a session is alive, or whether asking raises;
- a session's remote hostname;
- whether a ledger write succeeds;
- the replies of remote commands;
- the shuffle's random draws;
- the clock.

Python's `None` results and raised exceptions become `Option` values or outcome datatypes.

Where the repository's own description and its code disagree, the model follows the code:
- A connect timeout gives `None`, so it is final and never retried (`modules/bruteforce.py:92-96`).
- An attempt whose connection is lost on its last allowed retry is never recorded. `limited_try` records only attempts that return (`modules/bruteforce.py:272-301`).
- The fallback runs whenever old connections remain after the rounds and no rescan is forced, even when fresh successes were found (`modules/bruteforce.py:396`).

## Model

| member | source | states |
|---|---|---|
| BruteForce.TrySingleCredential | modules/bruteforce.py:30-164 | A result comes only from a successful connect whose session then reaches `add_session`. The result carries the credential's user, method and secret, and its session is whatever `add_session` answered. Whenever the connect succeeds, the credential is stored once as (host, port, user, secret, method), even when `get_remote_hostname` or `add_session` then raises. Such a raise leaves the session manager unchanged: a lost connection is passed on for retry, and any other exception gives `None`. A connect that loses its connection is passed on. Any other failure, and a method other than password/keyfile, give `None` and change nothing. |
| BruteForce.StoreAllSpec | modules/bruteforce.py:84-85 | Storing the rows of a run of credentials keeps the old rows in front and adds at most one row per credential. Every credential's row ends in the store, and no other row is added. |
| BruteForce.StoreAllAppend | modules/credential_store.py:27-49 | Storing the rows of two runs of credentials one after the other equals storing the rows of both runs in order. |
| BruteForce.RegisterAllKeys | modules/SSHSessionManager.py:65-85 | Registering the sessions of a run of successful credentials drops no cache key. The keys afterwards are exactly the keys before plus those of the credentials. |
| BruteForce.RegisterAllClosed | modules/SSHSessionManager.py:65-85 | Registering the sessions of a run of credentials keeps the sessions closed earlier in front. It closes at most one session per credential, and each closed session is a session of one of the credentials. |
| BruteForce.RegisterAllAppend | modules/SSHSessionManager.py:65-85 | Registering after two runs of credentials one after the other equals registering after both runs in order. |
| BruteForce.LimitedTry | modules/bruteforce.py:272-311 | One attempt. When recording is on, the attempt returned and the write succeeds, exactly one ledger row is appended; otherwise the ledger is unchanged. Its target hostname is the remote hostname on success and the host otherwise, and success is whether a result came back. A lost connection appends nothing. The credential store gains the credential exactly when its connect succeeded. The session manager changes exactly as `add_session` of a success would, and not at all otherwise. |
| BruteForce.CollectOldConnections | modules/bruteforce.py:206-221 | The old-connection map is empty without a database, without a source hostname, or under a forced rescan. Otherwise it is the map of the edges recorded for this exact `host:port`. |
| BruteForce.OldConnectionsOf | modules/bruteforce.py:213-221 | Each entry of the map is an edge from the list that leads to its key and was recorded for this exact `host:port`. |
| BruteForce.OldConnectionsKeys | modules/bruteforce.py:213-221 | A target is in the map exactly when some edge for this `host:port` leads to it. |
| BruteForce.OldConnectionsLastWins | modules/bruteforce.py:213-221 | The edge kept for a target is a matching edge to it, and no later matching edge goes to the same target: the last one wins. |
| BruteForce.Unattempted | modules/bruteforce.py:246-252 | The credentials kept are exactly the candidates whose (user, method, secret) the ledger has not seen. |
| BruteForce.AttemptsBounded | modules/bruteforce.py:351-359 | A credential is retried only after a lost attempt and with a higher retry number, and every retry number stays below the bound. Under those conditions it is attempted at most that many times. |
| BruteForce.BudgetNext | modules/bruteforce.py:351-359 | Scheduling a retry raises that credential's count by one within the cap. Other outcomes leave the counts alone. Either way the remaining retry budget plus the scheduled retries stays the same. |
| BruteForce.RunKeepsTasks | modules/bruteforce.py:317-391 | In every run of the rounds, pending tasks and scheduled retries name distinct credentials. Each task is the next attempt of its credential, and each count stays within `max_retries - 1`. |
| BruteForce.RunKeepsHistory | modules/bruteforce.py:330-364 | In every run of the rounds, only lost attempts are retried, and each retry follows its loss. Every credential has been launched or waits for its first attempt. A lost attempt below the cap is either retried or has its retry scheduled. |
| BruteForce.RunKeepsOutput | modules/bruteforce.py:365-387 | In every run of the rounds, each attempt is well formed and the results are the successes in order. The old connections left are exactly those no success reached, with their edges unchanged. |
| BruteForce.RunBookkeeping | modules/bruteforce.py:317-330 | During a run, every pending task names a credential, the counts stay within the cap, and the first pending task is its credential's next attempt. |
| BruteForce.RunDone | modules/bruteforce.py:330-391 | When no task is left, every credential was launched. Every lost attempt below the cap was retried, retries came only after losses, and the results and the old connections left are those of the attempts. |
| BruteForce.Next | modules/bruteforce.py:345-387 | One outcome consumes the first pending task. The results grow by the success's result and by nothing else. The retries grow by at most one task. They grow exactly when the attempt was lost with its credential's count below `max_retries - 1`, and the new task carries the count raised by one. Otherwise the counts stay. Old connections are only removed, and only by a success. |
| BruteForce.Classify | modules/bruteforce.py:346-387 | The handling of one outcome is the step function `Next`. A lost attempt below `max_retries - 1` schedules the next retry and raises the count. A success is appended and removes the old connection to the host it reached. Anything else is final. |
| BruteForce.RunTask | modules/bruteforce.py:336-387 | The first pending task runs through `limited_try` with the next attempt id. Its outcome fits the connect outcome, the bookkeeping becomes `Next` of it, and the ledger gets that attempt's row. The credential store goes on to hold the credentials of every connect that succeeded so far, this one included. The session manager goes on to hold the sessions of the successes so far. |
| BruteForce.RunRound | modules/bruteforce.py:330-391 | One `gather` round extends a run of the rounds. The retries it returns are the next round's tasks, the retry budget falls by their number, and the ledger holds one row per returned attempt so far. The credential store holds the credentials of every connect that succeeded so far, and the session manager the sessions of the successes so far, in order. |
| BruteForce.RunRounds | modules/bruteforce.py:317-391 | The `while tasks` loop ends. Every credential is launched, lost attempts below the cap are retried, and only lost attempts are retried. The results are the successes in order. The old connections left are those no success reached. The ledger gains exactly the rows of the attempts that returned and whose write succeeded. The credential store gains the rows of every credential whose connect succeeded, in order. The session manager registers the sessions of the successes, in order. |
| BruteForce.FallbackRunFits | modules/bruteforce.py:404-458 | Each fallback attempt reuses an old connection that carries a user, a secret and a method. It rebuilds the credential from that connection's properties and uses its own attempt id. |
| BruteForce.FallbackRunDistinct | modules/bruteforce.py:404-416 | The fallback tries each old connection at most once. |
| BruteForce.TryFallbackReconnect | modules/bruteforce.py:433-458 | A fallback attempt gives a result exactly when the connect succeeds. A lost connection, like any other failure, gives `None`. The credential store gains the credential whenever the connect succeeded, even when what follows raised. The session manager changes only as `add_session` of a success would. |
| BruteForce.FallbackLoop | modules/bruteforce.py:404-477 | Every usable old connection is tried once, in some order, and the results found are the successful attempts in order. The credential store takes in the fallback credentials whose connect succeeded, and the session manager the sessions of the fallback successes, in that order. |
| BruteForce.Fallback | modules/bruteforce.py:396-485 | The fallback tries every old connection left that has a user, a secret and a method, each exactly once, and collects the successes in order. The credential store takes in the fallback credentials whose connect succeeded, and the session manager the sessions of the fallback successes, in that order. |
| BruteForce.FallbackPhase | modules/bruteforce.py:396-416 | The fallback runs only with a database, a source hostname and no forced rescan. What it tries are edges for this `host:port` that no fresh success reached. The credential store takes in its credentials whose connect succeeded, and the session manager the sessions of its successes, in order. Nothing changes when it does not run. |
| BruteForce.Shuffle | modules/bruteforce.py:314 | `random.shuffle` gives a permutation of the credentials. |
| BruteForce.TryAll | modules/bruteforce.py:167-488 | When filtering is active, no credential the ledger had seen is launched; the launched list is a permutation of what was kept. Each credential is attempted at least once and at most `max(max_retries, 1)` times, and only lost attempts are retried. The results are the fresh successes followed by the fallback successes. The fallback tries only usable, unreached edges for this `host:port`, each once, and all of them. The ledger gains one row per returned attempt. The credential store ends as storing every credential whose connect succeeded would leave it, fresh attempts first, then fallback ones. The session manager ends as registering the fresh successes, then the fallback ones, would leave it. |
| SessionManager.NewSession | modules/SSHSessionManager.py:35-50 | The password is the credential exactly for the password method, and the key file exactly for the keyfile method; otherwise both are empty. The jump host is the one given. |
| SessionManager.AbortedIsFinal | modules/SSHSessionManager.py:53-57 | Once a connect answers false, or a probe or connect raises, the walk stays stopped. |
| SessionManager.WalkSnoc | modules/SSHSessionManager.py:24-61 | Walking a path and then one more hop is walking the longer path. |
| SessionManager.WalkAppend | modules/SSHSessionManager.py:24-61 | Walking two paths in turn is walking their concatenation. |
| SessionManager.ResultHeldUnderLastKey | modules/SSHSessionManager.py:59-63 | On success, the session returned is the one now cached under the last hop's key. |
| SessionManager.LastHopSession | modules/SSHSessionManager.py:21-61 | The last hop reuses the cached session if `is_connected()` says it is alive. Otherwise it is a new session, tunnelled through the previous hop's session (none for the first hop), whose connect succeeded. |
| SessionManager.WalkFrame | modules/SSHSessionManager.py:24-61 | A walk never drops a cached key, whether it finishes, stops or raises. It changes or adds only keys of hops on the path, and only to sessions whose connect succeeded. |
| SessionManager.GetSessionFrame | modules/SSHSessionManager.py:16-63 | `get_session`, whether it succeeds, stops at a failed connect or raises, keeps every cached key. It changes or adds only keys of hops on the path, each to a session that connected. |
| SessionManager.SSHSessionManager.constructor | modules/SSHSessionManager.py:6-9 | The cache starts empty and nothing has been closed. |
| SessionManager.SSHSessionManager.GetSession | modules/SSHSessionManager.py:11-63 | The hop loop returns the walk's session, reports whether an exception escaped, and leaves the walk's cache. An empty path returns `None` and changes nothing. |
| SessionManager.RaisedAtHop | modules/SSHSessionManager.py:28-53 | An exception from `is_connected()` or `connect()` at some hop escapes `get_session`. No session is returned, and the cache is what the earlier hops left. |
| SessionManager.SSHSessionManager.AddSession | modules/SSHSessionManager.py:65-85 | With a live session under the key, the new session is closed, the old one is returned and the cache is unchanged. Otherwise the new session is cached and returned. |
| SessionManager.SSHSessionManager.CloseAll | modules/SSHSessionManager.py:87-93 | Every cached session is closed once, no other session is closed, and the cache ends empty. |
| RandomQueue.AsyncRandomQueue.constructor | modules/helpers/AsyncRandomQueue.py:5-10 | The queue starts empty with no unfinished task, and the queue invariant holds. |
| RandomQueue.AsyncRandomQueue.Put | modules/helpers/AsyncRandomQueue.py:12-16 | The item is appended, the unfinished count rises by one, and the queue invariant (items present implies the event is set) holds. |
| RandomQueue.AsyncRandomQueue.Get | modules/helpers/AsyncRandomQueue.py:18-29 | An element at some position is removed and returned, and the rest keep their order. The items taken plus the items left equal the items put, as multisets. The event is cleared exactly when the list becomes empty. On an empty queue the call would wait. |
| RandomQueue.AsyncRandomQueue.Qsize | modules/helpers/AsyncRandomQueue.py:31-32 | The number of items put and not yet taken. |
| RandomQueue.AsyncRandomQueue.Empty | modules/helpers/AsyncRandomQueue.py:34-35 | Empty exactly when `qsize()` is 0, that is when every item put has been taken. |
| RandomQueue.AsyncRandomQueue.TaskDone | modules/helpers/AsyncRandomQueue.py:37-43 | The count drops by one first. The error is reported exactly when `task_done` has been called more times than `put`. |
| RandomQueue.AsyncRandomQueue.Join | modules/helpers/AsyncRandomQueue.py:45-48 | `join` returns exactly when every put has had its `task_done`. |
| CredentialStore.Stored | modules/credential_store.py:37-46 | The new row is in the list afterwards, the earlier rows are unchanged, and the list grows by at most one. |
| CredentialStore.StoredIdempotent | modules/credential_store.py:37-49 | Storing the same row twice is storing it once. |
| CredentialStore.StoredKeepsNoDuplicates | modules/credential_store.py:37-45 | Storing never creates a duplicate row. |
| CredentialStore.PortNormalised | modules/credential_store.py:30 | A numeric port and its decimal text make the same row. Two numeric ports make the same row only if they are equal. |
| CredentialStore.FilterAppend | modules/credential_store.py:55-58 | A filtered view of appended lists is the views appended, so views keep stored order. |
| CredentialStore.FilterAfterStore | modules/credential_store.py:45 | Storing changes a view only by the new row, at its end. |
| CredentialStore.CredentialStore.constructor | modules/credential_store.py:7-10 | The store starts with the rows already saved. |
| CredentialStore.CredentialStore.Store | modules/credential_store.py:27-49 | The scan finds an equal row or appends the new one; the result is `Stored`. |
| CredentialStore.CredentialStore.ByMethod | modules/credential_store.py:52-66 | Exactly the stored rows with the given method; both method getters are this rule. |
| CredentialStore.CredentialStore.GetAllMethodPassword | modules/credential_store.py:52-58 | Exactly the rows with method password. |
| CredentialStore.CredentialStore.GetAllMethodKeyfile | modules/credential_store.py:60-66 | Exactly the rows with method keyfile. |
| CredentialStore.CredentialStore.Find | modules/credential_store.py:77-83 | Exactly the rows with that ip and `str(port)`. |
| CredentialStore.CredentialStore.GetTriplets | modules/credential_store.py:68-70 | Distinct triplets, each the (user, secret, method) of a stored row, and all of them. |
| AttemptStore.RecordedIsAttempted | modules/attempt_store.py:107-114 | A recorded attempt's triple joins the attempted set under its key. It joins the successful set exactly when the attempt succeeded. |
| AttemptStore.SuccessfulWereAttempted | modules/attempt_store.py:136-173 | The successful triples are a subset of the attempted triples. |
| AttemptStore.OtherKeysInvisible | modules/attempt_store.py:140 | A row with another source, ip or port changes neither query. |
| AttemptStore.QueriesMonotone | modules/attempt_store.py:107-114 | Appending rows never removes a triple from either query. |
| AttemptStore.TargetHostnameIrrelevant | modules/attempt_store.py:138-142 | The target hostname of a row does not affect either query. |
| AttemptStore.FailuresAreNotSuccesses | modules/attempt_store.py:167-173 | A triple whose rows all failed is attempted but not successful. |
| AttemptStore.AttemptStore.constructor | modules/attempt_store.py:15-17 | The ledger starts with the rows already in the database. |
| AttemptStore.AttemptStore.RecordAttempt | modules/attempt_store.py:60-122 | A successful write appends exactly the attempt's row. A failed write is swallowed and leaves the table as it was. |
| AttemptStore.AttemptStore.GetAttemptedCredentials | modules/attempt_store.py:124-154 | The distinct triples of the rows under the key. A failed read gives the empty set. |
| AttemptStore.AttemptStore.GetSuccessfulAttempts | modules/attempt_store.py:156-184 | The distinct triples of the successful rows under the key. A failed read gives the empty set. |
| IPv4.NetmaskToCidr | modules/utils.py:129-131 | The count is defined exactly when every dot-separated field is one `int()` accepts; otherwise it raises `ValueError`. |
| IPv4.NetmaskToCidrCountsBits | modules/utils.py:129-131 | `netmask_to_cidr` of a dotted address counts its set bits. |
| IPv4.NetmaskToCidrOfPrefixMask | modules/utils.py:129-131 | `netmask_to_cidr` of the mask of prefix length p is p, e.g. 255.255.255.0 gives 24. |
| IPv4.OverlapsIff | modules/utils.py:247 | Two blocks overlap exactly when their addresses agree on the first min(p1, p2) bits. |
| IPv4.OverlapsSymmetric | modules/utils.py:247 | Overlap does not depend on the order of the blocks. |
| IPv4.Hosts | modules/utils.py:253 | `hosts()` yields its addresses in strictly ascending order. |
| IPv4.HostsExactly | modules/utils.py:68 | `hosts()` lists exactly the block's addresses, without the network and broadcast addresses for prefixes up to /30. |
| IPv4.HostsCount | modules/utils.py:68 | A block has 2^(32-p) - 2 hosts for p up to 30, and 2^(32-p) for /31 and /32. |
| IPv4.HostsOfSlash30 | modules/utils.py:68 | A /30 block has exactly the two addresses after its network address as hosts. |
| IPv4.HostsOfSlash32 | modules/utils.py:68 | A /32 block has the address itself as its only host. |
| IPv4.InNetworkIff | modules/utils.py:68 | An address is in a block exactly when it agrees with the block on the first p bits. |
| IPv4.ParseAddrOfFormatAddr | modules/utils.py:68 | `str` of an address reads back as that address. |
| IPv4.FormatAddrOfParseAddr | modules/utils.py:66 | An address text that reads is exactly what `str` prints for the address. |
| IPv4.ParseNetworkOfCidr | modules/utils.py:245-252 | `address/p` reads as the block of the address at prefix p, host bits cleared. |
| IPv4.ParseNetworkOfAddr | modules/utils.py:66 | A plain address reads as the /32 block of itself. |
| IPv4.ParseNetmaskOfMasks | modules/utils.py:245 | The dotted form of the mask of prefix length p reads back as the netmask p. |
| Utils.NetmaskOfInt | modules/utils.py:245 | `str(mask)` reads as a prefix length exactly when the mask lies in 0..32. |
| Utils.CidrTextNetwork | modules/utils.py:245-246 | `ip_network(f"{ip}/{mask}", strict=False)` is the masked block when the address reads and the mask is in 0..32, and raises otherwise. |
| Utils.CidrTextOfAddr | modules/utils.py:245-246 | When the address reads, `ip/mask` is its block at that prefix with host bits cleared. |
| Utils.SameSubnetOfAddrs | modules/utils.py:247 | Two masked blocks overlap exactly when the addresses agree on the first min(p1, p2) bits. |
| Utils.FormattedNames | modules/utils.py:253 | Each listed text reads back as its address, so the list names exactly the addresses. |
| Utils.InSameSubnet | modules/utils.py:244-247 | `in_same_subnet` answers exactly when both addresses read and both masks are in 0..32; otherwise it raises. |
| Utils.InSameSubnetIff | modules/utils.py:244-247 | Two blocks are in the same subnet exactly when the addresses agree on the first min(mask1, mask2) bits. |
| Utils.InSameSubnetSymmetric | modules/utils.py:244-247 | `in_same_subnet` is symmetric, including whether it raises. |
| Utils.EnumerationPrefix | modules/utils.py:251 | The enumeration prefix is `max(mask, cap)`, at least both and equal to one of them. |
| Utils.GetAllIpsInSubnet | modules/utils.py:250-253 | The list is the hosts of the address's block at the capped prefix, as text. It raises exactly when the address does not read or the capped prefix is outside 0..32. |
| Utils.HostsWithinCap | modules/utils.py:251-253 | A block at a prefix no shorter than the cap has no more hosts than a block of the cap. |
| Utils.GetAllIpsInSubnetCapped | modules/utils.py:251-253 | The enumeration never lists more addresses than a block of the cap holds (`max_mask`, or 24 when it is unset or 0). |
| Utils.ProxySettings | modules/utils.py:20-32 | SOCKS4 exactly for socks4, HTTP exactly for http, SOCKS5 otherwise. A missing or zero port becomes 8080 for HTTP and 1080 otherwise. |
| Utils.NonBlank | modules/utils.py:55 | The lines kept are exactly the stripped non-blank lines of the file. |
| Utils.FlatMapMembers | modules/utils.py:63-71 | A target comes from some line's contribution, and each line's contribution is among the targets. |
| Utils.ReadTargets | modules/utils.py:46-73 | The loop builds exactly the in-order expansion of the input lines. |
| Utils.ExpandMembers | modules/utils.py:63-71 | A target is among what some line contributes, and everything a line contributes is a target. |
| Utils.ExpandSingle | modules/utils.py:63-71 | A single line expands to what that line contributes. |
| Utils.LineTargetsOfNetwork | modules/utils.py:66-68 | A line that reads as a network contributes its host addresses in ascending order, and each reads back as its host. |
| Utils.DirectTargets | modules/utils.py:59-61 | Text that names no file is one stripped line: the hosts of the network it reads as, or else that line itself. |
| Utils.Slash30Targets | modules/utils.py:61-68 | `address/30` yields exactly the two middle addresses of its block, in order. |
| Utils.Slash30Hosts | modules/utils.py:68 | A /30 block has two hosts, the addresses right after its network address. |
| Utils.Slash30Text | modules/utils.py:61-66 | `address/30` needs no stripping and reads as the /30 block of the address. |
| Utils.CidrEntriesOfTokens | modules/utils.py:195-199 | Only tokens that hold a `/` and not `127.0.0.1` give entries, one each and in order. The parse fails exactly when one of them fails `split`/`int`. |
| Utils.CidrEntriesFailed | modules/utils.py:196-199 | Once a token raises, the tokens after it are not parsed. |
| Utils.ScanPartsGrows | modules/utils.py:214-225 | Scanning an `inet` line only adds entries. Each has a non-empty address named by an earlier `inet` part of the line or carried over. |
| Utils.ScanLinesGrows | modules/utils.py:209-227 | Scanning the `ifconfig` output only adds entries, each with a non-empty address. |
| Utils.ScanPartsFailed | modules/utils.py:215-219 | Once a part raises `IndexError`, the rest of the line is not scanned. |
| Utils.ScanLinesFailed | modules/utils.py:211-227 | Once a line raises, the rest of the output is not scanned. |
| Utils.RemoteIpOrder | modules/utils.py:187-239 | `ip addr` wins when it finds an address, then `ifconfig`. When both find nothing, the peer address (or the host, when the peer address is empty) is the one /32 entry, and a failed peer lookup gives no entries. |
| Utils.ParseCidrTokens | modules/utils.py:195-199 | The token loop computes the token entries, or reports the `ValueError`. |
| Utils.ScanInetParts | modules/utils.py:214-225 | The loop over one line's parts computes the part scan, or reports the `IndexError`. |
| Utils.ScanIfconfig | modules/utils.py:209-227 | The line loop computes the scan of the whole output. |
| Utils.GetRemoteIp | modules/utils.py:183-241 | The function computes `RemoteIp` of the two replies and the peer lookup. |
| Utils.GetRemoteHostname | modules/utils.py:146-179 | The name is the stripped output of the first of three attempts that printed something non-blank. When none did, it is the host. |
| Notifier.Normalise | modules/notifier.py:64-66 | The url loses exactly its trailing slashes, and topic and token come out stripped. |
| Notifier.NormaliseIdempotent | modules/notifier.py:79-81 | Normalising settings that are already normalised changes nothing. |
| Notifier.NtfyNotifier.constructor | modules/notifier.py:56-71 | Settings are normalised. The notifier is enabled exactly when the flag is set and url and topic are non-empty. The dedup map starts empty. |
| Notifier.NtfyNotifier.Configure | modules/notifier.py:77-86 | New normalised settings. Enabled exactly when url and topic are non-empty, whatever the notifier was before. |
| Notifier.Admit | modules/notifier.py:200-218 | Nothing is sent when the notifier is disabled, or when the key was last sent less than 30 ticks ago (an unseen key counts as sent at 0). Otherwise the key is recorded at `now`, and every other entry survives exactly when it is younger than 300 ticks. |
| Notifier.ResendWithinWindow | modules/notifier.py:204-213 | After a send, the same key is refused exactly while less than 30 ticks have passed. |
| Notifier.UnseenKey | modules/notifier.py:207-208 | A key never sent is refused exactly while the clock reads below 30. |
| Notifier.PruneKeepsSuppression | modules/notifier.py:213-218 | Once the clock is past the window, pruning never lets a duplicate through: sending one key leaves the verdict on every other key unchanged. |
| Notifier.NtfyNotifier.SendAsync | modules/notifier.py:192-226 | A disabled notifier or a duplicate changes nothing. Otherwise the dedup map becomes `Admit`'s and one push, with its headers and message, is handed over. |
| Notifier.Headers | modules/notifier.py:239-247 | Content type, title and priority are always present. Tags is present exactly when there are tags, comma-joined. Authorization is `Bearer <token>` exactly when there is a token. Nothing else is present. |
| Notifier.TagsRoundTrip | modules/notifier.py:244-245 | Splitting the Tags header on commas gives back the tags when none holds a comma. |
| Notifier.PrivateKeyAlarm | modules/notifier.py:149-167 | Priority is high, and the rotating_light tag is present, exactly when the key is unencrypted. The old_key tag is always there. |
| Notifier.NewAccess | modules/notifier.py:90-112 | A new access is alarming: priority high with the rotating_light tag. The title ends with the remote host, and the message opens with the `From :` line naming the source host. |
| Notifier.NewJumphost | modules/notifier.py:114-129 | A new jumphost is quiet: default priority and no alarm tag. The title ends with the host. The message opens with the `Jumphost :` line naming it and ends with the source host. |
| Notifier.ScanComplete | modules/notifier.py:131-147 | The scan summary is quiet. Its message opens with the targets-scanned line and ends with the max-depth count. |
| Notifier.PrivateKeyFound | modules/notifier.py:149-167 | The title ends with the host name, and the message opens with the `Host  :` line naming it. An encrypted key is quiet; an unencrypted one is alarming. |
| Notifier.CredentialsExtracted | modules/notifier.py:169-186 | Extracted credentials are alarming. The title ends with the host name, and the message opens with the `Host  :` line naming it and ends with the types line. |
| Notifier.NewAccessKeyNamesHost | modules/notifier.py:90-112 | Two new-access notifications share a dedup key only for the same remote host. |
| Notifier.JumphostKeyDepth | modules/notifier.py:114-129 | The same jumphost from the same source is deduplicated exactly when it is found at the same depth. |
| Notifier.ScanCompleteKeyCounts | modules/notifier.py:131-147 | Two scan summaries are deduplicated exactly when all three counts agree. |
| Notifier.Insert | modules/notifier.py:176 | Inserting into an ascending list keeps it ascending and adds exactly the new element. |
| Notifier.SortedDistinct | modules/notifier.py:176 | `sorted(set(types))` is ascending and holds exactly the types found. |
| Notifier.AscendingUnique | modules/notifier.py:176 | A set has exactly one ascending enumeration. |
| Notifier.SortedDistinctIsSortedSet | modules/notifier.py:176 | The summary list has no repeats, is ordered pairwise, and is the only ascending list of the types found. |
| Notifier.TypesSummary | modules/notifier.py:176 | An empty list of types gives `unknown`. |
| Notifier.TypesSummaryOrderFree | modules/notifier.py:176 | The types line depends only on the set of types found. |
| Notifier.CredentialsOrderFree | modules/notifier.py:169-186 | The credentials notification, and hence its dedup key, does not depend on the order or repetition of the types found. |

## Left out

- IPv6: only IPv4 addresses and networks are modelled. `read_targets` already treats an IPv6 line as a plain target, because `IPv4Network` rejects it. `in_same_subnet` and `get_all_ips_in_subnet` accept IPv6 through `ip_network`, but the model answers as if they had raised.
- Unicode decimal digits: `int()` is modelled for ASCII digits only.
- Concurrency: `asyncio` tasks, `gather`, the semaphore, `wait_for` timeouts, sleeps and backoff delays, locks, events and conditions, and the notifier's background threads. The attempts of a round run one after another in task order.
- The blocking of `AsyncRandomQueue.get` and `join`: an operation that would wait reports so instead.
- Persistence: the CSV file of the credential store, the SQLite database of the ledger, and the graph database. Each is an in-memory value or an answer passed in.
- The SSH transport: connecting, liveness, closing, remote command execution and key loading are abstract answers. `key_objects` and the credential store's key preloading are not part of this model.
- SessionManager.SSHSessionManager.AddSession: an exception from `is_connected()` or `close()` inside `add_session` is not modelled in this method. Its only caller, `try_single_credential`, models such a raise through its after-connect answer, which leaves the cache unchanged.
- `id(cred)` is modelled as the credential's position in the shuffled list. `retry_counts` is a sequence indexed by that position.
- BruteForce.FallbackLoop: the fallback visits the old connections in an arbitrary order rather than dictionary insertion order.
- BruteForce.FallbackPhase: for the debug host (`machine2_useasjumphost` reaching 172.19.0.3:22), each fallback result is logged after awaiting `is_connected()`. A raise there would drop that result and every later fallback result; this is not modelled, and the model collects every fallback success.
- BruteForce.TrySingleCredential: a raise inside `store` itself is not modelled; the store always completes. A raise after it, from `get_remote_hostname` or `add_session`, is modelled.
- BruteForce.TryFallbackReconnect: the fallback's `wait_for` with twice the scan timeout is part of the concurrency left out; a fallback attempt always completes.
- Utils.ProxySettings: URL parsing (`urlparse`, and an invalid port that makes `parsed.port` raise) and the proxied socket connect are not modelled. The scheme and the parsed port are inputs.
- Utils.GetRemoteHostname: the sleeps between attempts are left out. A reply is just the printed text, or an exception.
- Utils.GetRemoteIp: the replies of the two commands and the peer lookup are inputs. `exec_command_with_stderr` itself is not modelled.
- `read_list_from_file_or_string`, `load_keys`, `get_local_info`, `preload_key` and `check_open_port` in `modules/utils.py` use the file system, `psutil`, `asyncssh` or the network, and are not part of this model. For `read_targets`, whether the input names a readable file is an input.
- Notifier: the HTTP POST, the request URL with the quoted topic, status handling and the timeout are left out. A push handed to the background thread is recorded with the headers it would carry, using the settings current at hand-over.
- Notifier: `time.monotonic()` is an integer clock reading passed in. `hash((title, message))` is the pair itself, so hash collisions are not modelled.
- Notifier.TypesSummary: its contract states only the empty case. The non-empty case is the `, `-join of `SortedDistinct`, which `SortedDistinctIsSortedSet` characterises as the sorted set of the types.
- Notifier: `None` for url, topic, token or tags is taken as the empty string or the empty list.

# Chat server: AVL trees, records file, sessions and wire formats

This project models the C chat server and its client: the AVL tree that holds all server state,
the records file behind the user tree, the admin and client commands as a state machine over
users, sessions and groups, the texts the two programs exchange, and the linked queue.

The main results speak of all inputs, all runs and all reachable states.

## What the code turns out to do

The AVL tree exists twice, because what is written and what is meant differ.

* As written (`WrittenTree`, and on the heap `AvlNode` and `AvlTree`), the height expression
  `1 + (a > b) ? x : y` makes the sum the condition, so a node stores its left child's height.
  On every reachable tree all stored heights are 0 or 1, no rotation branch is ever taken, and
  the tree is step for step a plain search tree (`PlainTree`). A node with two children survives
  its removal, and `avl_remove` still answers `AVL_OK`: DEL then tells the admin that the user is
  deleted. The size is never decremented: it is the number of keys plus the number of nodes
  deleted so far.
* As meant (`RepairedTree`, and on the heap `RepairedAvl`), four repairs are made: heights are
  1 + max; a rotated child takes its height from its own children; the double rotation after an
  insertion turns the child; a node with two children is removed through its in-order successor,
  and the size is decremented. This is not the repository's code; it is what the code needs for
  the balance its name promises, and the rows about it cite the lines that are repaired.

Other results a maintainer may not expect: `remove_queue` frees half of the queue; a records file
that DEL has rewritten turns the user tree into a list at the next start-up; and a client listens,
on a little-endian server, at the byte-swapped image of its source port, where messages still reach
it because every sender makes the same swap.

## How it is laid out

| files | subject |
|---|---|
| `TreeModel`, `PlainTree`, `WrittenTree`, `RepairedTree`, `Replay` | the tree as a value: meaning, laws of one call, laws of whole runs |
| `AvlNode`, `AvlTree`, `RepairedAvl` | the same operations on linked nodes, in place, proved equal to the value level |
| `Comparators` | `strcmp` and the three comparators |
| `Queue` | the linked queue, in place |
| `Scanf`, `ScanLaw`, `CString`, `Protocol`, `Texts`, `ChatClient` | the printf and scanf directives in use (section 7.21.6.2 of ISO/IEC 9899:2011), buffers, requests and answers |
| `ServerModel`, `Answers`, `AdminAnswers` | the state machine, and what every text is answered and does, said without the handlers |
| `Persistence`, `Restart`, `Routing`, `Groups`, `EndToEnd`, `Example` | its properties over runs, and small runs that meet what they ask for |
| `UserStore`, `SessionStore`, `GroupStore`, `Server` | the running server's objects, each handler proved to take the state machine's step |

An `Option` of `None` where a tree is expected stands for a NULL dereference; the theorems show
that no reachable state has one. A state holds user records behind pointers of an arbitrary type
`P`: sessions and the user tree share them, and the heap server instantiates `P` with its own
record class. `ServerModel` keeps the user tree's shape, because the outcome of DEL depends on
it, but not its stored heights, which `WrittenTree.EveryRunIsPlain` shows to be irrelevant.

`dafny verify dfyconfig.toml` checks the whole project.

## Model

| member | source | states |
|---|---|---|
| TreeModel.LookupReadsContents | code/server/src/data_structures/avl_tree.c:85-90 | in a search tree `avl_get` finds a payload exactly for the keys the tree holds, and it is the one stored with the key |
| TreeModel.TraversalCorrect | code/server/src/data_structures/avl_tree.c:207-213 | the recursive traversal meets every entry of the tree exactly once, no other, and in strictly increasing key order |
| PlainTree.RemoveLaw | code/server/src/data_structures/avl_tree.c:145-163 | removal as written, heights aside: the key goes if and only if its node has at most one child, otherwise the whole map stays; order is kept |
| WrittenTree.AddIsPlain | code/server/src/data_structures/avl_tree.c:108-139 | while every stored height is 0 or 1, insertion as written never dereferences NULL, keeps every height 0 or 1, and builds what an unbalanced search tree builds |
| WrittenTree.AddKeepsStill | code/server/src/data_structures/avl_tree.c:112-138 | at one node, with such heights, insertion replaces a child, stores the left child's height, and finds a balance in -1..1, so no rotation branch is taken |
| WrittenTree.RemoveIsPlain | code/server/src/data_structures/avl_tree.c:141-183 | the same as AddIsPlain for removal, with the two-child case a no-op |
| WrittenTree.RemoveKeepsStill | code/server/src/data_structures/avl_tree.c:145-182 | the same as AddKeepsStill for removal |
| WrittenTree.EveryRunStoresLeftHeights | code/server/src/data_structures/avl_tree.c:120 | after any run every node stores its left child's height, but for leaves that still store the 1 they were made with |
| WrittenTree.RotationsKeepOrder | code/server/src/data_structures/avl_tree.c:223-247 | a rotation as written meets NULL exactly when the child or `save` is missing; otherwise it keeps the in-order sequence, and stores at the node its left child's height and at the child the height of `save`'s left child |
| WrittenTree.TurningTheNodeTangles | code/server/src/data_structures/avl_tree.c:127-135 | rotating the node instead of its child would leave the node under both links of the child, with the subtree of the heavy side lost |
| WrittenTree.StepLaw | code/server/src/data_structures/avl_tree.c:54-83 | one call of `avl_add` or `avl_remove` as written: the reply code is the finite map's, and so is the new map, but for the removal of a key whose node has two children |
| WrittenTree.EveryRunIsPlain | code/server/src/data_structures/avl_tree.c:54-83 | after any sequence of calls from the empty tree: no NULL dereference, every stored height 0 or 1, search order, and step for step the shape of a plain search tree |
| WrittenTree.RemovalDeletesIff | code/server/src/data_structures/avl_tree.c:151-163 | `avl_remove` of a present key answers `AVL_OK`, and deletes it if and only if its node has at most one child |
| WrittenTree.RemovalCanDoNothing | code/server/src/data_structures/avl_tree.c:151-163 | a concrete run: the root of a three-node tree survives its own removal, answered `AVL_OK` |
| WrittenTree.PayloadStable | code/server/src/data_structures/avl_tree.c:151-163 | over any further calls that do not remove the key, a present key keeps the same payload pointer, whichever node it moves to |
| WrittenTree.StepKeepsCount | code/server/src/data_structures/avl_tree.c:54-83 | one call keeps the size equal to the nodes of the tree and the nodes deleted so far |
| WrittenTree.SizeLaw | code/server/src/data_structures/avl_tree.c:63-82 | over every run the size, which no removal decrements, is the number of keys plus the number of nodes deleted, so it is the number of keys if and only if no removal so far found its key at a node with at most one child |
| WrittenTree.SizeOutlivesItsKeys | code/server/src/data_structures/avl_tree.c:68-83 | a concrete run: one addition and its removal leave the empty tree with size 1 |
| Replay.WrittenReplayDegenerates | code/server/src/main.c:112-119 | adding any records in strictly increasing key order to the tree as written gives a right spine as deep as there are records |
| Replay.RepairedReplayShallow | code/server/src/main.c:112-119 | replaying any file into the repaired tree gives the same map at logarithmic depth |
| Restart.LoadIsRun | code/server/src/main.c:112-119 | the start-up loop over any file, repeated names included, builds the plain tree that `avl_add` of the records in file order builds |
| Restart.RewrittenFileDegenerates | code/server/src/main.c:112-119 | after a DEL of a known name in any sound state, starting again from the file it wrote gives a user tree without left children, as deep as there are users; the repaired tree, given the same calls, has depth d with 2^(d div 2) at most their number plus 1 |
| RepairedTree.RotateRightKeepsMeaning | code/server/src/data_structures/avl_tree.c:223-234 | the right rotation keeps the in-order sequence, the map and search order |
| RepairedTree.RotateLeftKeepsMeaning | code/server/src/data_structures/avl_tree.c:236-247 | the left rotation keeps the in-order sequence, the map and search order |
| RepairedTree.RotateLeftRightKeepsMeaning | code/server/src/data_structures/avl_tree.c:173-175 | the left-right double rotation keeps them too |
| RepairedTree.RotateRightLeftKeepsMeaning | code/server/src/data_structures/avl_tree.c:177-179 | the right-left double rotation keeps them too |
| RepairedTree.RotateRightBalances | code/server/src/data_structures/avl_tree.c:172-175 | at balance 2 with a left child that does not lean right, one rotation balances the subtree and lowers it by one, or by none exactly if the child was even |
| RepairedTree.RotateLeftBalances | code/server/src/data_structures/avl_tree.c:176-179 | the mirror image |
| RepairedTree.RotateLeftRightBalances | code/server/src/data_structures/avl_tree.c:172-175 | at balance 2 with a left child that leans right, the double rotation has the grandchild it needs, balances the subtree and lowers it by one |
| RepairedTree.RotateRightLeftBalances | code/server/src/data_structures/avl_tree.c:176-179 | the mirror image |
| RepairedTree.AddBalances | code/server/src/data_structures/avl_tree.c:108-139 | repaired insertion of a new key never meets NULL, keeps exact heights and balance factors in -1..1, and grows the height by at most one |
| RepairedTree.AddInserts | code/server/src/data_structures/avl_tree.c:108-139 | repaired insertion adds exactly the new key to the map and keeps search order |
| RepairedTree.RemoveBalances | code/server/src/data_structures/avl_tree.c:141-183 | repaired removal never meets NULL, keeps exact heights and balance, and lowers the height by at most one |
| RepairedTree.RemoveDeletes | code/server/src/data_structures/avl_tree.c:141-183 | repaired removal, through the in-order successor where there are two children, removes exactly the key from the map and keeps search order |
| RepairedTree.StepLaw | code/server/src/data_structures/avl_tree.c:54-83 | one repaired call is exactly one step of the finite map, reply code included, and keeps order and balance |
| RepairedTree.SizeStaysExact | code/server/src/data_structures/avl_tree.c:68-83 | with the decrement repaired, the size is the number of keys before and after every call |
| RepairedTree.EveryRunBalanced | code/server/src/data_structures/avl_tree.c:54-83 | after any sequence of calls the repaired tree is defined, ordered, exactly heighted and balanced, and holds the map the same calls build |
| RepairedTree.BalancedIsBushy | code/server/src/data_structures/avl_tree.c:215-221 | a balanced tree of height h has at least Fib(h + 2) - 1 nodes |
| RepairedTree.SearchesAreLogarithmic | code/server/src/data_structures/avl_tree.c:185-197 | after any run, a search that compares p nodes in a tree of n keys has 2^(p div 2) at most n + 1 |
| RepairedTree.PayloadStable | code/server/src/data_structures/avl_tree.c:151-163 | over any further calls that do not remove the key, a present key keeps the same payload pointer, though the successor's data moves to another node |
| AvlNode.GetHeight | code/server/src/data_structures/avl_tree.c:215-217 | the stored height, 0 for NULL |
| AvlNode.GetBalance | code/server/src/data_structures/avl_tree.c:219-221 | the difference of the children's stored heights |
| AvlNode.PrivateGet | code/server/src/data_structures/avl_tree.c:185-197 | the node found is the one the search on the value tree finds |
| AvlNode.PrivatePrintClient | code/server/src/data_structures/avl_tree.c:207-213 | the callback sees the in-order sequence of the tree |
| AvlTree.RightRotation | code/server/src/data_structures/avl_tree.c:223-234 | `right_rotation` as written, in place: the same nodes, the child's height from `save`, which must not be NULL |
| AvlTree.LeftRotation | code/server/src/data_structures/avl_tree.c:236-247 | `left_rotation` as written, in place |
| AvlTree.FixAfterAdd | code/server/src/data_structures/avl_tree.c:122-138 | rebalancing after insertion as written, in place, where lines 127 and 134 are not reached |
| AvlTree.FixAfterRemove | code/server/src/data_structures/avl_tree.c:170-182 | rebalancing after removal as written, in place, double rotations included, wherever it dereferences no NULL |
| AvlTree.PrivateAdd | code/server/src/data_structures/avl_tree.c:108-139 | insertion as written, in place, on any tree where it dereferences no NULL and comes to neither line 127 nor 134: the nodes left behind form the tree WrittenTree.Add gives, out of the old nodes and the new one |
| AvlTree.MoveUp | code/server/src/data_structures/avl_tree.c:158-168 | `*current = *temp` and the height: the only child's node is emptied into its parent |
| AvlTree.PrivateRemove | code/server/src/data_structures/avl_tree.c:141-183 | removal as written, in place, on any tree where it dereferences no NULL: the nodes left behind form the tree WrittenTree.Remove gives, out of the old nodes |
| AvlTree.AvlTree.Add | code/server/src/data_structures/avl_tree.c:54-66 | `avl_add`: duplicate refused unchanged, otherwise the step of WrittenTree and size + 1 |
| AvlTree.AvlTree.Remove | code/server/src/data_structures/avl_tree.c:68-83 | `avl_remove`: the step of WrittenTree, with the size left as it was and the deleted node counted beside it |
| AvlTree.AvlTree.SizeIsKeysIff | code/server/src/data_structures/avl_tree.c:63 | on the heap the size is the number of keys plus the nodes deleted so far, so it is the number of keys if and only if there are none |
| AvlTree.AvlTree.Get | code/server/src/data_structures/avl_tree.c:85-90 | `avl_get`: the stored payload pointer exactly for present keys |
| RepairedAvl.RightRotation | code/server/src/data_structures/avl_tree.c:223-234 | the right rotation in place, with the child's height from its own children: the same nodes, the rotated tree |
| RepairedAvl.LeftRotation | code/server/src/data_structures/avl_tree.c:236-247 | the left rotation in place: the same nodes, the rotated tree |
| RepairedAvl.FixAfterAdd | code/server/src/data_structures/avl_tree.c:122-138 | rebalancing after insertion in place, turning the child in the double cases |
| RepairedAvl.FixAfterRemove | code/server/src/data_structures/avl_tree.c:170-182 | rebalancing after removal in place |
| RepairedAvl.PrivateAdd | code/server/src/data_structures/avl_tree.c:108-139 | repaired insertion in place: out of the old nodes and the new one, the tree RepairedTree.Add gives |
| RepairedAvl.PrivateRemove | code/server/src/data_structures/avl_tree.c:141-183 | repaired removal in place: out of the old nodes, the tree RepairedTree.Remove gives |
| RepairedAvl.RemoveBoth | code/server/src/data_structures/avl_tree.c:151-163 | the two-child case: the successor's data replaces the removed data and the successor goes from the right subtree |
| RepairedAvl.RepairedAvlTree.Add | code/server/src/data_structures/avl_tree.c:54-66 | repaired `avl_add` keeps order, balance and the size equal to the number of keys |
| RepairedAvl.RepairedAvlTree.Remove | code/server/src/data_structures/avl_tree.c:68-83 | repaired `avl_remove` keeps order, balance and the size equal to the number of keys |
| RepairedAvl.RepairedAvlTree.SizeIsKeys | code/server/src/data_structures/avl_tree.c:68-83 | on the heap the repaired size is the number of keys |
| Comparators.DataCmpIsOrder | code/server/src/main.c:62-64 | `data_cmp` is a strict total order on names |
| Comparators.GroupCmpIsOrder | code/server/src/main.c:55-60 | `group_cmp` is a strict total order on names |
| Comparators.SessionCmpIsOrder | code/server/src/main.c:66-75 | `session_cmp` is a strict total order on addresses: 0 exactly for equal IP text and port |
| Comparators.StrCmpIsDictionaryOrder | code/server/src/main.c:63 | `strcmp` is negative exactly if the first text is a proper prefix of the second, or has the smaller character at the first place where they differ; positive the other way round; 0 exactly for equal texts |
| Comparators.ComparatorsDecide | code/server/src/main.c:55-75 | so `data_cmp` and `group_cmp` decide dictionary order of names, and `session_cmp` dictionary order of IP texts and then port order |
| Comparators.PortDifferenceFits | code/server/src/main.c:74 | in 32 bits the port subtraction equals the true difference if and only if the left port is at least the right one minus 2^31, for any right port of a socket |
| Queue.Queue.constructor | code/server/src/data_structures/queue.c:12-20 | a new queue is empty |
| Queue.Queue.Push | code/server/src/data_structures/queue.c:22-30 | the pushed node is appended; size, start, end and the links stay consistent |
| Queue.Queue.Peek | code/server/src/data_structures/queue.c:32-34 | the oldest node, NULL exactly on an empty queue |
| Queue.Queue.Pop | code/server/src/data_structures/queue.c:36-50 | the oldest node goes; on an empty queue nothing happens |
| Queue.Queue.RemoveQueue | code/server/src/data_structures/queue.c:52-58 | the loop stops after exactly ceil(n / 2) pops and leaves the last floor(n / 2) elements in order |
| Queue.Queue.Drain | code/server/src/data_structures/queue.c:52-58 | a loop on non-emptiness pops all n |
| Queue.Queue.PrintQueue | code/server/src/data_structures/queue.c:60-66 | every element once, oldest first |
| Queue.PopsFollowPushes | code/server/src/data_structures/queue.c:22-50 | for any pushes and pops, what came out followed by what is left is what went in, in order |
| Queue.Perform | code/server/src/data_structures/queue.c:12-50 | any sequence of pushes and pops on a new linked queue: what came out is the beginning of what went in, what is left in the queue is the rest, both in order |
| CString.RemoveEndLine | code/server/src/utils/string.c:12-22 | the buffer's text is cut in place at its first CR or LF |
| CString.StartsWith | code/client/src/utils/functions.c:32-42 | true exactly for prefixes |
| CString.FirstLineTwice | code/server/src/client/client_server.c:32 | cutting the datagram a second time, in the dispatcher, changes nothing |
| Scanf.ReadDecimal | code/client/src/main.c:380 | %d reads back every number %d prints, whatever white space follows |
| Scanf.ScanInvertsPrint | code/client/src/main.c:140 | for every format whose conversions are set apart by white space, scanning what was printed recovers exactly the fields, at the end of the text or of the line |
| ScanLaw.ScanIsGrammar | code/server/src/admin/commands/admin_commands.c:49 | for every format and every text, sscanf assigns all its fields, and these, if and only if the text can be cut into the pieces the directives ask for: white space and words, signed decimal numbers, the rest of a line, ordinary characters |
| Texts.FirstLineLaw | code/server/src/utils/string.c:12-22 | the text kept is the one without CR or LF up to which the buffer agrees and after which it ends or has a CR or LF |
| Texts.SplitLaw | code/server/src/client/commands/client_commands.c:33-34 | a line's command is a given name exactly if the line is that name or starts with it and a space; the arguments are what follows the space |
| Texts.TwoWordsIff | code/server/src/client/commands/client_commands.c:61 | LOGIN's scan finds u and v exactly if the arguments are white space, the word u, white space, the word v, and then nothing or white space |
| Texts.WordAndLineIff | code/server/src/client/commands/client_commands.c:111 | MSG's scan finds u and v exactly if the arguments are white space, the word u, white space, and then v, from a visible character to the end of its line |
| Texts.OneWordIff | code/server/src/client/commands/client_commands.c:168 | the one-word scan finds u exactly if the arguments are white space, the word u, and then nothing or white space |
| Texts.AdminKinds | code/server/src/admin/commands/admin_commands.c:26-31 | which lines are LIST, ADD, DEL and QUIT: those that are the name or start with it and a space |
| Texts.RequestsSpelledOut | code/client/src/main.c:110-365 | the five requests of the client, letter by letter |
| Protocol.AnswersSpelledOut | code/server/src/client/commands/client_commands.c:82 | the answers the client scans, letter by letter: the port, the peer and the multicast address |
| Protocol.RequestsAreUnderstood | code/server/src/client/commands/client_commands.c:30-49 | dispatching and scanning the client's LOGIN, MSG, P2P, CREATEMULTICAST and GETMULTICAST text gives back the same command and fields if and only if names and passwords are non-empty and free of white space and the message body is non-empty, free of line ends and does not start with white space |
| Protocol.PortIsRead | code/client/src/main.c:380 | the client reads the port the server prints after a login |
| Protocol.PeerIsRead | code/client/src/main.c:140 | the client recovers name, IP and port from the answer to P2P |
| Protocol.MulticastIsRead | code/client/src/main.c:207-213 | the client recovers the address from the answer to GETMULTICAST |
| ChatClient.PeerAnswersAreTold | code/client/src/main.c:140-145 | over all answers P2P can give, the client goes on if and only if the answer names a peer, and then with the peer's name, IP and port |
| ChatClient.MulticastAnswersAreTold | code/client/src/main.c:207-217 | over all answers GETMULTICAST can give, the client goes on if and only if the answer is an address, and then with it |
| ChatClient.Globals.TakePort | code/client/src/main.c:380-385 | `message_port` becomes the port the server printed, and stays as it was when the scan fails |
| ChatClient.Globals.ConnectMulticast | code/client/src/main.c:207-235 | `multicast_ip` becomes the address the server printed even when joining fails; `current_group` changes only when joining succeeds |
| Answers.LoginIsAnswered | code/server/src/client/commands/client_commands.c:51-92 | the answer and the new state for every LOGIN text in every sound state: already logged in, fewer than two words, unknown user, other IP, wrong password, in this order; otherwise exactly the one session and the one port change |
| Answers.MsgIsAnswered | code/server/src/client/commands/client_commands.c:96-150 | the answer to every MSG text: not logged in, no permission, no word with a line after it, unknown user, no session at the user's address, in this order; otherwise the line is forwarded to that session under the sender's name |
| Answers.P2PIsAnswered | code/server/src/client/commands/client_commands.c:153-193 | the answer to every P2P text, with its refusals in order; otherwise the peer's name, IP and port |
| Answers.CreateIsAnswered | code/server/src/client/commands/client_commands.c:196-236 | the answer and the new state for every CREATEMULTICAST text: not logged in, no word, no permission, name taken, pool used up, in this order; otherwise the name holds the next address and nothing else changes |
| Answers.GetIsAnswered | code/server/src/client/commands/client_commands.c:239-271 | the answer to every GETMULTICAST text, with its refusals in order; otherwise the group's address |
| Answers.OthersAreAnswered | code/server/src/client/client_server.c:36-37 | every other text is answered that there is no such command, and changes nothing but that the sender has a session |
| Answers.OnlyPermittedForward | code/server/src/client/commands/client_commands.c:99-107 | in any state, a message is forwarded only for a logged-in sender whose record permits it, under that record's name, and to a session |
| Answers.OnlyPermittedCreate | code/server/src/client/commands/client_commands.c:201-216 | in any state, the groups change, or are announced to, only at a datagram of a logged-in sender whose record permits it |
| AdminAnswers.AddIsAnswered | code/server/src/admin/commands/admin_commands.c:43-63 | the answer and the new state for every ADD line: not three words and three numbers, or a known name, change nothing; otherwise file and memory gain the record with exactly the fields scanned |
| AdminAnswers.AddLineAdds | code/server/src/admin/commands/admin_commands.c:49-55 | ADD with a name, an IP, a password and any three numbers one space apart gives the user exactly that IP, password and permissions, field by field, and appends exactly that record to the file |
| AdminAnswers.DelIsAnswered | code/server/src/admin/commands/admin_commands.c:66-82 | the answer and the new state for every DEL line: no word, or an unknown name, change nothing; otherwise the name goes if its node has at most one child, and the file becomes the users that are left, in dictionary order |
| AdminAnswers.DelLineDeletes | code/server/src/admin/commands/admin_commands.c:70-80 | DEL with one word is for that user |
| AdminAnswers.ListIsAnswered | code/server/src/admin/commands/admin_commands.c:36-40 | every LIST line names each user once, in dictionary order, and changes nothing |
| AdminAnswers.QuitIsAnswered | code/server/src/admin/commands/admin_commands.c:84-88 | every QUIT line changes nothing and answers nothing |
| AdminAnswers.OthersAreRefused | code/server/src/admin/commands/admin_commands.c:26-33 | every other line is answered that there is no such command, and changes nothing |
| ServerModel.StepKeepsInv | code/server/src/client/commands/client_commands.c:51-92 | every datagram and admin line keeps the state invariant: users ordered by name, no dangling pointer, a session bound to a record if and only if logged in, and the IPs of session and record equal |
| ServerModel.RunKeepsInv | code/server/src/client/commands/client_commands.c:51-92 | the invariant over every run |
| ServerModel.StartIsSound | code/server/src/main.c:112-119 | start-up from any file establishes the invariant |
| Persistence.LoadGivesFirst | code/server/src/main.c:112-119 | replay gives exactly the first record of each name in the file |
| Persistence.AddKeepsAgreement | code/server/src/admin/commands/admin_commands.c:55-60 | ADD keeps file and memory in agreement and the names in the file distinct |
| Persistence.DelCompacts | code/server/src/data_structures/avl_tree.c:77-80 | a DEL of a known name leaves in the file exactly one record per user in memory, equal to it, ports included, in strictly increasing dictionary order of names |
| Persistence.DelDeletesIff | code/server/src/admin/commands/admin_commands.c:75-80 | DEL of a known name always answers that the user is deleted; memory and file lose the user if and only if its node had at most one child, and otherwise memory is unchanged |
| Persistence.LoginKeepsAgreement | code/server/src/client/commands/client_commands.c:76-80 | LOGIN changes nothing of a record that the agreement looks at |
| Persistence.FileAgreesAlways | code/server/src/admin/commands/admin_commands.c:55-76 | after any run from start-up, the first record of each name in the file is the record in memory, ports aside; from distinct names the names stay distinct |
| Persistence.RestartRecovers | code/server/src/main.c:112-119 | restarting from the file after any run brings back the same users with the same records, ports aside |
| Persistence.ListNamesEachUserOnce | code/server/src/admin/commands/admin_commands.c:36-40 | LIST names every user exactly once, in strictly increasing dictionary order, and changes nothing |
| Persistence.RecordsNeverChange | code/server/src/data_structures/avl_tree.c:157-161 | over any run an allocated record stays allocated and changes in nothing but its port, even after DEL of its user |
| Persistence.PointerIsStable | code/server/src/data_structures/avl_tree.c:151-163 | without a DEL of its name, a user keeps the very same record over any run |
| Routing.OneSessionPerSender | code/server/src/client/client.c:47-68 | there is exactly one session for each address that has ever sent a datagram |
| Routing.BindingIsForever | code/server/src/client/commands/client_commands.c:54-80 | a logged-in session stays logged in as the same non-null record over any run, and the IPs of session and record stay equal |
| Routing.RecordPointsAtLatest | code/server/src/client/commands/client_commands.c:76-80 | over any run, the record some session has logged in as carries the address of the most recent of those sessions |
| Routing.RoutedToLatest | code/server/src/client/commands/client_commands.c:124-128 | MSG forwards to, and P2P names, exactly the most recent session to log in as the record the name stands for |
| Groups.StepCreates | code/server/src/client/commands/client_commands.c:226-234 | a step changes the groups only by a successful CREATEMULTICAST, with the next address of the pool |
| Groups.PoolIsHandedOutInOrder | code/server/src/client/commands/client_commands.c:226-234 | in every reachable state group i in creation order holds pool address i, there are no others, and `current_group` is their number and at most `max_groups` |
| Groups.GroupsAreInjective | code/server/src/main.c:37-40 | from distinct addresses, no two groups ever share one |
| Groups.GroupsAreForever | code/server/src/client/commands/client_commands.c:226-234 | no step takes a group away or changes its address; with the pool used up no step changes the groups at all |
| Groups.CreatedThenFound | code/server/src/client/commands/client_commands.c:261-269 | once CREATEMULTICAST has answered a name with an address, every later permitted GETMULTICAST of it, by any session and after any steps, answers that address |
| EndToEnd.PortsAgree | code/server/src/client/client.c:50 | for every 16-bit source port and any byte orders: the printed port is read back, and the client's listening port, the server's forwarding port and the peer's sending port are the same |
| EndToEnd.ListensOnOwnPortIff | code/client/src/main.c:307 | that port is the client's own source port if and only if the server is big-endian or the two bytes of the port are equal |
| EndToEnd.LoginTextLogsIn | code/client/src/main.c:364-367 | the client's LOGIN text, for any user name and password, logs its session in as a record if and only if the session was not logged in, the record is the named user's, the IPs match and the password is right; then the new state and the three answers, the port among them, are exactly given, and otherwise nothing changes and one answer gives the first reason |
| EndToEnd.CreateTextCreates | code/client/src/main.c:173-179 | the CREATEMULTICAST text of any session, in any state: refused to one that is not logged in or has no permission; otherwise it creates the named group with the next address, unless the name is taken or the pool used up |
| EndToEnd.MsgTextIsAnswered | code/client/src/main.c:108-114 | the MSG text of any session: refused to one that is not logged in or has no permission, and for an unknown user or one without a session; otherwise the body goes to the session at the user's address |
| EndToEnd.MessageReachesListener | code/server/src/client/commands/client_commands.c:141 | after any run, a MSG text of a session that may send is forwarded to the latest login as its user, at the port that client listens on |
| EndToEnd.PeerIsReached | code/client/src/main.c:140-159 | after any run, a P2P text is answered with the latest login as its user, which the asking client reads, and sends to the port that peer listens on |
| EndToEnd.GroupAddressIsLearned | code/client/src/main.c:197-213 | once a group is created, the GETMULTICAST text of any permitted session is answered with its address, which the client reads |
| Example.WritesToHerself | code/server/src/client/commands/client_commands.c:96-150 | a run that meets what MessageReachesListener and RoutedToLatest ask for: the one user of a file logs in, and her MSG to her own name comes back to her |
| Example.FindsHerself | code/server/src/client/commands/client_commands.c:153-193 | the same for PeerIsReached: her P2P to her own name is answered with her address |
| Example.FindsHerGroup | code/server/src/client/commands/client_commands.c:196-271 | the same for GroupAddressIsLearned: the group she creates is found by its name |
| UserStore.UserStore.Insert | code/server/src/data_structures/avl_tree.c:54-66 | the user tree gains the record's pointer unless the name is there; the records already allocated stay |
| UserStore.UserStore.Remove | code/server/src/data_structures/avl_tree.c:68-72 | the user tree after a removal; no payload is freed |
| UserStore.UserStore.PrivateRewrite | code/server/src/data_structures/avl_tree.c:100-106 | appends the records of the subtree to the file in order |
| UserStore.UserStore.Rewrite | code/server/src/data_structures/avl_tree.c:77-80 | the file holds exactly the records of the tree in order |
| UserStore.UserStore.ListUsers | code/server/src/data_structures/avl_tree.c:96-98 | the records of the tree in order |
| SessionStore.SessionStore.InitClientSession | code/server/src/client/client.c:47-68 | the session of an address is found, or created once, not logged in; every other address keeps its very session object and value |
| SessionStore.SessionStore.Bind | code/server/src/client/commands/client_commands.c:77-80 | a login changes the one session only |
| GroupStore.GroupStore.Create | code/server/src/client/commands/client_commands.c:226-230 | the name is bound to the next address of the pool, `current_group` moves on, no other group changes |
| Server.FindCommand | code/server/src/client/commands/client_commands.c:41-46 | the first entry of the table that equals the command, the table's length if there is none |
| Server.Server.CmdLogin | code/server/src/client/commands/client_commands.c:51-92 | the handler changes the objects and answers exactly as the state machine's LOGIN step |
| Server.Server.CmdMsg | code/server/src/client/commands/client_commands.c:96-150 | the handler changes nothing and answers and forwards as the state machine's MSG; its null-pointer read cannot happen |
| Server.Server.CmdP2P | code/server/src/client/commands/client_commands.c:153-193 | the same for P2P |
| Server.Server.CmdCreateMulticast | code/server/src/client/commands/client_commands.c:196-236 | the handler takes exactly the state machine's CREATEMULTICAST step |
| Server.Server.CmdGetMulticast | code/server/src/client/commands/client_commands.c:239-271 | the handler answers as the state machine's GETMULTICAST |
| Server.Server.ClientCmdFunction | code/server/src/client/commands/client_commands.c:30-49 | cutting, splitting and the table dispatch take the step of the command the text parses to |
| Server.Server.HandleDatagram | code/server/src/client/client_server.c:30-37 | one turn of the worker is one Datagram step of the state machine, keeps the invariant, and replaces no session object |
| Server.Server.AvlAdd | code/server/src/data_structures/avl_tree.c:54-66 | the name is looked up, the record written to the file, the node inserted: the state machine's ADD |
| Server.Server.CmdAdd | code/server/src/admin/commands/admin_commands.c:43-63 | the handler takes exactly the state machine's ADD step, with a fresh block |
| Server.Server.CmdDel | code/server/src/admin/commands/admin_commands.c:66-82 | the handler takes exactly the state machine's DEL step, rewrite included |
| Server.Server.CmdFunction | code/server/src/admin/commands/admin_commands.c:19-34 | one admin line is one Admin step; the exit flag is set by a line that names QUIT, cleared by one that names another command and left alone by the rest |
| Server.Server.Replay | code/server/src/main.c:112-119 | the loop leaves the server in the state machine's start state, with distinct fresh blocks |

## Left out

- Threads: the admin thread and the client thread share the user tree without a lock; here every datagram and every admin line is one atomic step.
- Sockets, `recvfrom`, `sendto`, `accept`, menus, logs and terminal output: replies and forwarded messages are values a step returns.
- `thread_pool.c`: nothing in the server uses it.
- Fixed-size buffers: texts and numbers are unbounded, so over-long names, messages cut by `snprintf` and numbers beyond 32 bits are not modelled; a text is taken to end at its first NUL. The admin's buffer is not terminated after `read`, so bytes of an earlier, longer line can follow a short one; here a line is what was sent.
- Permission values outside 0 and 1: LOGIN indexes a two-entry table of words with them; here any value but 0 is shown as YES.
- Uninitialised memory: a new session's `client` is taken as null, and a new record's `port` as an arbitrary number, about which nothing is claimed until a login sets it.
- The records file: a write or read of one record is all or nothing, and the bytes of a record are the record; a truncated last record and I/O errors are not modelled.
- Allocation: the scratch record a command allocates and the copy the tree keeps are one block, `free` is not modelled, and that a removed payload stays allocated is the one fact kept.
- Keys: the comparator reads a key through the payload pointer; here the key is kept beside the pointer, which is right because no command writes a name or an address.
- AvlTree.PrivateAdd: does not cover an insertion that comes to the double rotation of line 127 or 134, which would leave a node under two links, so that there is no tree to speak of; every run is proved to keep clear of it, and WrittenTree.FixAfterAdd says what the statements would build.
- AvlTree.FixAfterAdd: the same.
- WrittenTree.RemovalDeletesIff: speaks of trees whose stored heights are 0 or 1, which is every tree a run can build.
- Routing.RoutedToLatest: claims nothing for a record that no session has logged in as since the run began, whose port is whatever the file or the allocator left there.
- Groups.GroupsAreInjective: takes distinct pool addresses, as the table in `main.c` has.
- Joining and sending to multicast groups, beyond which address and group name the client keeps; an address that `inet_pton` refuses is not modelled.
- `avl_print`, `client_cmp`, `client_print`, `send_udp_message`: printing, a copy of `data_cmp` and a system call; they hold no logic of their own.
- Command-line arguments: they only name the ports and the records file.
- GNS3 and router configuration, Makefiles.

# Asan transit guide: verified model

A Dafny model of a C transit server and its console client. The program loads bus stops, routes, stations and subway
distances from CSV files, builds a graph, answers shortest-path requests, keeps favorites and recent searches in text
files, and talks to the client in one-line text packets. The project states what these parts are for and proves it.

The modules follow the program:

- `Graph`, `Proposals`, `Walks`, `Canonical`, `ShortestPath`, `BufferLimits`: the adjacency-list graph, what a run of
  edge insertions leaves behind, what "shortest" means, which of several shortest paths is the answer, the array Dijkstra
  with its 256-node result buffer, and graphs on which that buffer decides.
- `LineNames`, `RouteStops`, `Loader`, `LoaderFacts`, `RoadLaws`, `Distances`, `StationData`: the line-name scanner, the
  ordered linked list of stops, the graph builder, what every built graph has in common, which roads it has in terms of
  the loaded data, what its minutes mean, and data of stations and distances only.
- `Transfers`, `TransferLaws`, `Splitting`, `Packets`, `RouteAnswer`, `AnswerLaws`, `Resolve`, `ResolveLaws`, `Requests`,
  `TransferService`, `Journey`, `NoteLimits`: transfer counting on both sides and what it amounts to, the route answer on
  the wire and what its steps and notes say about the path, the two name resolvers and what they find, what a request asks
  for, the request handler, all of it together, and data on which the client's note buffer is too short.
- `Files`, `Recent`, `RecentShown`, `Favorites`, `FavoriteNumbers`: files read through a 1024-byte buffer, the two
  user-state files over whole runs, what the user reads of them, and the numbers a user sees and types.
- `Responses`, `FixedGuard`, `Lookups`, `StationSearch`, `ListItems`, `SearchLaws`, `BusSearch`, `BusOrder`: bounded list
  responses under both kinds of size guard, what three searches find and the client prints of it, the ranked bus search
  and its order.
- `Basics`, `Text`, `Appending`, `Numbers`, `Csv`: shared values, C strings and buffers, appending lists to a bounded
  text, decimal numbers, and the CSV reader.

How the C program is rendered:

- A `char` stands for one byte; a string value is what precedes the terminator. Response buffers are `char` arrays that
  hold a terminated string. Korean words in the code appear as their UTF-8 bytes.
- The node array grows and is updated in place; a node's edge list is a sequence in list order, head first. The stop
  list of a route is a linked list of heap nodes. Loaded lists that are only read are sequences in list order.
- Distances in the path search are 32-bit integers, so the proofs show that no sum overflows. Signed overflow is
  undefined in C, so the search is specified for edge weights of at most INT_MAX − INT_MAX/4, the largest for which
  every sum it forms fits; `LoaderFacts.BuiltSearchable` says which data meets that.
- A C `long` has 32 bits on Windows and 64 on the POSIX systems; what `strtol` reads is given for both widths.
- Coordinates, squared distances and minutes use exact reals. The clock, the distance column of a route step, the
  display label, rank and texts of a bus route, the route text of a stop and the existence of a favorite's target are
  parameters. Files are byte strings; opening, renaming and allocating succeed.
- Some things one would expect of the program hold only under a condition: that a reachable goal is answered, that a
  deletion number out of range deletes nothing, that a number shown in the list is the one that deletes, that no route is
  mistaken for another in the bus search, that a response ends in a line end, that the client shows the node names it was
  sent and a line for every transfer, and that both name searches mean the same node. The model follows the code; the
  rows below give the exact condition and an input that fails.
- Server and client count transfers differently when labels are empty, but no loaded data set has any: rows without a
  route number are skipped (src/server/data_loader.c:151), a blank subway line becomes SUBWAY
  (src/server/data_loader.c:691), and common line names are not blank (src/server/data_loader.c:619). So the two counts
  agree on every built graph.

## Model

| member | source | states |
|---|---|---|
| Graph.TransferGraph.AddNode | src/common/graph.c:84-110 | a known id returns its index and changes nothing; a new one is appended, clipped to its buffers, without edges |
| Graph.TransferGraph.AddEdge | src/common/graph.c:141-175 | keeps one edge per ordered pair, no self-loop, weights of at least one; the new graph is `Connect` of the old |
| Graph.ConnectRoad | src/common/graph.c:149-174 | a proposal changes the road of its own pair only, and that only by improving it |
| Graph.ConnectWellFormed | src/common/graph.c:141-175 | the one-edge-per-pair invariant survives every proposal |
| Proposals.StoredIsWinner | src/common/graph.c:141-175 | after any run of proposals the stored road of a pair is the lightest proposal for it with the label of the first to reach that weight; none is stored exactly when none was proposed (non-positive weights included) |
| Proposals.SameDistances | src/common/graph.c:141-175 | with positive weights, a bound is met by a walk over stored edges iff it is met by a trip over the multigraph of all proposals, self-loops included |
| ShortestPath.LowerBound | src/common/graph.c:218-249 | a walk lighter than every unsettled distance ends at a settled node whose distance it does not undercut |
| ShortestPath.PickNearest | src/common/graph.c:218-232 | picks the unvisited node of least distance below INF, lowest index on ties, or reports that none is left |
| Canonical.FirstHopMeans | src/common/graph.c:218-248 | the predecessor chosen for a node is, of all last hops of shortest walks to it, the one settled first: least distance, then lowest index |
| Canonical.CanonicalIsShortest | src/common/graph.c:207-271 | following these choices back from any reachable node gives a shortest walk that repeats no node |
| ShortestPath.RelaxEdges | src/common/graph.c:240-248 | offering all edges of a settled node keeps the distance and predecessor labels truthful and leaves no edge out of it unrelaxed |
| ShortestPath.ChosenAfterOffer | src/common/graph.c:240-248 | a strictly better offer cannot tie with a node expanded earlier, so the recorded predecessor stays the first that attains the distance |
| ShortestPath.Settle | src/common/graph.c:207-249 | despite the early exit every visited node has its true distance and its canonical predecessor; without reaching the goal every walk weighs INF or more; no distance sum leaves 32 bits |
| ShortestPath.SettledHop | src/common/graph.c:207-249 | when a node is settled all its last hops have been expanded, so its recorded predecessor is the first of them |
| ShortestPath.ChainIsWalk | src/common/graph.c:252-263 | the predecessor chain is a walk of exactly the recorded distance that repeats no node |
| ShortestPath.ChainIsCanonical | src/common/graph.c:252-263 | the predecessor chain of a settled node is its canonical path |
| ShortestPath.TraceBack | src/common/graph.c:253-271 | the chain is returned in order iff it has at most 256 nodes |
| ShortestPath.FindPath | src/common/graph.c:178-290 | answers if and only if some walk is below INF and the canonical path has at most 256 nodes, and answers with that path: a shortest walk without repetition whose segments equal stored edges and sum to the total; otherwise a cleared result, or an untouched one for a bad index |
| ShortestPath.CompleteWhenSmall | src/common/graph.c:185-289 | with at most 256 nodes, or a walk of at most 255 minutes, the search answers |
| ShortestPath.TooLongNeedsMuch | src/common/graph.c:252-283 | a canonical path too long for the buffer needs more than 256 nodes and at least 256 minutes |
| BufferLimits.LongRouteRefused | src/common/graph.c:257-283 | on every loaded data set of one bus route with 257 or more different stops the search refuses the way from end to end, although there is a walk below INF; no reportable path exists |
| BufferLimits.RouteDataIs | src/server/data_loader.c:668-682 | such data exists in every size up to a million stops |
| BufferLimits.TieDecides | src/common/graph.c:240-283 | on one loaded data set of stations and distances a goal is answered although a shortest walk to it overflows the buffer, and another is refused although a three-station shortest path to it could be reported |
| Walks.SymmetricTotals | src/common/graph.c:178-290 | on a symmetric graph the best totals there and back are equal |
| LineNames.CommonLineName | src/server/data_loader.c:581-645 | finds the first cleaned cell of one field that the other names too, both read up to their first blank cell |
| LineNames.CommonCommutes | src/server/data_loader.c:623-645 | whether two stations share a line does not depend on their order |
| LineNames.NamesBack | src/server/data_loader.c:581-645 | a field of comma-separated names lists exactly these names in order, whatever space is around them, up to its first blank cell |
| Loader.BuildGraph | src/server/data_loader.c:648-772 | the finished graph holds exactly the nodes of the data and the edges of all proposed links, line links only when the distance table gave none; which roads that makes is stated by the rows of `RoadLaws` and by `LoaderFacts.WalkRoad` |
| RoadLaws.NodesAre | src/server/data_loader.c:659-666 | with distinct ids the graph has one node per stop and then one per station, in list order, each with its id, name, kind and place |
| RoadLaws.BusRoad | src/server/data_loader.c:668-682 | when no distance row names a stop: two stops are joined iff some route calls at both one right after the other, in 5 minutes, labelled with the number of the first such route in list order |
| RoadLaws.TableRoad | src/server/data_loader.c:684-702 | when some distance row names two known ids and no route stop a station: two stations are joined iff a row names them, in either order, with the minutes and the label of the first of the quickest such rows; shared lines then join nothing |
| RoadLaws.LineRoadExists | src/server/data_loader.c:704-719 | with distinct ids and no distance row that names two known ids: any two stations that share a line name have a road of at most 8 minutes, the same both ways |
| RoadLaws.LineRoad | src/server/data_loader.c:704-719 | when moreover no route stop names a station: two stations are joined iff they share a line name, in exactly 8 minutes, labelled with the first name of the earlier station that the later one has too |
| RoadLaws.BuiltRoad | src/server/data_loader.c:668-767 | whatever the data: the road of a pair is the lightest its routes, distance rows, lines and walks propose, the earliest of these on ties |
| Distances.Pythagoras | src/server/data_loader.c:544-551 | squared distances are those of a plane on which a degree is 111 km north and 88 km east; the same in both directions |
| Distances.WalkingTimes | src/server/data_loader.c:554-578 | in kilometres: 3 minutes up to 0.3, 5 up to 0.5, 10 up to 1, 15 up to 1.5, 20 up to 2, 30 up to 3, 50 up to 5, then 80; and the walking rule reaches 3 km |
| Distances.RidingTimes | src/server/data_loader.c:296-305 | two minutes for each kilometre, rounded to the nearest minute, never less than two |
| LoaderFacts.BuiltSymmetric | src/server/data_loader.c:668-767 | every built graph is symmetric in weight and label, whatever the data |
| LoaderFacts.SameTotalBothWays | src/server/data_loader.c:668-767 | two reported paths between the same nodes in opposite directions have the same total |
| LoaderFacts.BuiltSameDistances | src/server/data_loader.c:668-767 | every built graph has the distances of the multigraph of all its proposals |
| LoaderFacts.BuiltSearchable | src/server/data_loader.c:684-702 | the search may run on a built graph when no distance row asks for more minutes than an int leaves room for |
| LoaderFacts.BuiltTyped | src/server/data_loader.c:659-767 | on tidy data an edge is labelled TRANSFER iff its ends are of different kinds |
| LoaderFacts.PathParity | src/server/data_loader.c:659-767 | on tidy data a reported path has an even number of TRANSFER segments iff it starts and ends on the same kind |
| LoaderFacts.WalkRoad | src/server/data_loader.c:721-767 | when no route stop names a station and no distance row a stop: stop and station are joined iff the station is located and within reach or, if none is, the first nearest one; always by TRANSFER and exactly the minutes for their distance |
| LoaderFacts.LinkedHasRoad | src/server/data_loader.c:721-767 | with distinct ids alone: a stop and a station the walking rule joins have a road, the same both ways, of at most the minutes for their distance |
| LoaderFacts.NearestStationMeans | src/server/data_loader.c:722-745 | the remembered station is the first nearest located one under 999999 |
| LoaderFacts.AttachedIsLinked | src/server/data_loader.c:727-766 | a stop is linked to some station iff it is located and some located station is nearer than 999999 |
| LoaderFacts.AttachedStopsConnected | src/server/data_loader.c:721-767 | with distinct ids alone: if the stations are mutually connected, so are any two attached stops |
| LoaderFacts.RouteBound | src/server/data_loader.c:668-682 | between the i-th and j-th stop of a route there is a walk of at most five minutes per stop apart, and no reported total exceeds it |
| RouteStops.StopList.Add | src/common/linked_list.c:126-150 | links the new row in behind all rows that are not later; the list stays well linked |
| RouteStops.StableSort | src/common/linked_list.c:141-149 | adding rows in any order gives an ordered list that keeps, per sequence number, the order of arrival |
| RouteStops.SortUnique | src/common/linked_list.c:141-149 | order together with the rows of each number determines the list completely |
| Transfers.CountTransfers | src/server/transfer_service.c:85-114 | computes the total that `TransferLaws.TotalIsPlaces` and `TransferLaws.WalkSeparates` describe by the labels alone |
| TransferLaws.TotalIsPlaces | src/server/transfer_service.c:85-114 | on labels as edges store them the count is the number of TRANSFER positions plus the number of positions where a ride directly follows a ride under another label |
| TransferLaws.WalkSeparates | src/server/transfer_service.c:102-110 | on any labels a walk hides the change around it: the count of a path with a walk in the middle is one more than the counts of its two sides together |
| Transfers.WriteNotes | src/client/result_viewer.c:456-530 | collects one note, naming the place, per transfer segment and per direct change; the text is cut where its buffer ends |
| TransferLaws.NotesOfJoin | src/client/result_viewer.c:502-523 | where two paths meet exactly one note is added if a ride meets a ride under another label, naming the place and both labels in order, and none otherwise |
| AnswerLaws.NoteIff | src/client/result_viewer.c:502-523 | a note is written iff some step is walked between its two places, in order, or some ride begins at its place directly behind a ride under another label |
| TransferLaws.NoteBegins | src/client/result_viewer.c:503-520 | a printed note begins with the place it starts at, and a change goes on with the label it comes from |
| Transfers.LinesPrintedIff | src/client/result_viewer.c:490-530 | as many note lines are printed as there are notes exactly when their text fits the buffer, and otherwise fewer |
| Transfers.NotesTextSize | src/client/result_viewer.c:490-530 | names and labels within their buffers make notes of at most 376 bytes, so 87 notes always fit |
| Transfers.ClientAgainstServer | src/server/transfer_service.c:85-114 | on any labels the two counts differ by exactly the changes only one side sees because of empty labels |
| Transfers.NotesMatchCount | src/client/result_viewer.c:502-523 | server count and client notes agree iff the empty labels balance, hence always without empty labels |
| Transfers.EmptyLabelsDiffer | src/client/result_viewer.c:502-523 | labels on which only the client, and labels on which only the server, counts a change |
| RouteAnswer.WriteAnswer | src/server/transfer_service.c:173-226 | the exact response in a buffer of any size: names left out where they do not fit, figures and steps cut, the line end last if there is room |
| AnswerLaws.StepsFollow | src/server/transfer_service.c:195-219 | step i carries id, name and kind of node i of the path in its first three fields and of node i + 1 behind the label, then the minutes, then the distance unless it is walked or a stop is involved |
| AnswerLaws.FollowsMeans | src/server/transfer_service.c:195-219 | such steps meet: each starts at the node where the one before ends, and their names run through the names of the path in order |
| AnswerLaws.NotesOnPath | src/client/result_viewer.c:456-524 | the notes of an answer are those of the path: one per walked segment from its first to its second node, one per direct change at its node, and no other |
| AnswerLaws.BodyFields | src/server/transfer_service.c:173-192 | on the wire come the names, then the number of walks and direct changes, then the total minutes |
| RouteAnswer.AnswerFits | src/server/transfer_service.c:173-226 | when the answer fits, the response is the complete answer line |
| RouteAnswer.AnswerWholeIff | src/server/transfer_service.c:173-226 | once the buffer has room for the header and a name, the response has a line end exactly when the complete answer fits: whatever is cut leaves no room for it |
| RouteAnswer.ShowTransfer | src/client/result_viewer.c:408-530 | the client's cutting loops compute `Decode` of the payload |
| Splitting.WordsBackIff | src/client/result_viewer.c:384-404 | joined parts come back from `strtok` exactly when none is empty or holds the separator |
| Packets.HeaderRoundTrip | src/client/result_viewer.c:12-56 | the header of a successful one-line response splits into its kind, code 0 and everything up to the line end |
| Packets.ResponseRoundTrip | src/client/result_viewer.c:12-56 | a one-line response with any code in the range of int splits into its kind, that code and everything up to the line end |
| Packets.ErrorRoundTrip | src/client/result_viewer.c:36-45 | an error line splits at the colon behind its code |
| RouteAnswer.AnswerRoundTrip | src/server/transfer_service.c:173-226 | the client decodes the same count, minutes and nine fields per step, in order, one-node paths included; and the same node names if and only if none is empty and none holds a comma |
| RouteAnswer.UnnamedNodeLost | src/client/result_viewer.c:384-404 | a reported path of one unnamed node is shown without any node |
| RouteAnswer.NotesMatchAnswer | src/client/result_viewer.c:456-524 | count shown and notes listed agree iff the empty labels of the path balance |
| TransferService.HandleTransfer | src/server/transfer_service.c:134-227 | invalid request; a found answer exactly when both ends resolve and the search answers, then the canonical path and its response in full or as cut by the buffer; otherwise not found |
| Requests.HalvesOf | src/server/transfer_service.c:134-165 | a request names the start before its colon and the goal behind it, without the space around them |
| Requests.HalvesIff | src/server/transfer_service.c:134-165 | a request has two halves iff a colon is among the first 255 bytes |
| Requests.RequestById | src/server/transfer_service.c:134-165 | a request by two ids leads from the first node to the second, whatever their names |
| Journey.PathLabelled | src/server/data_loader.c:668-767 | no segment of a path reported on a built graph has an empty label |
| Journey.BuiltSendable | src/server/transfer_service.c:173-226 | on loaded texts free of the separators every step of a reported path fits the client's step buffer and splits into its fields |
| Journey.ShownCountIsNotes | src/client/result_viewer.c:408-530 | over every loaded data set free of the separators, whenever the line fits the packet: the steps the user reads lead from each node of the path to the next and meet; the transfer count equals the number of walks and direct changes and of notes, each note naming its places in order; as many note lines follow exactly when their text fits its buffer (87 notes always do); the names are those of the path iff none is empty and none holds a comma, and then the steps name the same nodes |
| NoteLimits.NotesOverflow | src/client/result_viewer.c:490-530 | the note buffer can be too short on loaded data although the answer fits its packet: 119 transfers are announced and fewer note lines follow |
| Resolve.ResolveByKeyword | src/server/transfer_service.c:16-77 | picks the lowest index of the best non-empty tier: id, exact station, exact located, exact, partial station, partial located, partial; the rows of `ResolveLaws` say what that means for the nodes |
| Resolve.ResolveId | src/server/facility_service.c:10-62 | the same with the located tiers left out |
| ResolveLaws.IdWins | src/server/transfer_service.c:27-32 | the first node whose id is the keyword is taken by both searches before any name |
| ResolveLaws.StationNamed | src/server/transfer_service.c:34-55 | when the keyword contains the station word and is no id, both searches take the first station of that name, whatever stops share it |
| ResolveLaws.StationNamedInPart | src/server/transfer_service.c:56-76 | and when nothing has exactly that name, the first station whose name contains the keyword |
| ResolveLaws.KindsDoNotMatter | src/server/facility_service.c:10-62 | for a keyword without the station word, changing the kinds of nodes changes the result of neither search |
| ResolveLaws.FacilityNamed | src/server/facility_service.c:25-62 | when no station is to be preferred, the facility search takes the first node of that name, or else the first whose name contains it |
| ResolveLaws.RouteNamed | src/server/transfer_service.c:34-76 | and the route search the first located one, or the first of all when none is located |
| ResolveLaws.NothingFound | src/server/facility_service.c:10-62 | both searches fail on exactly the same keywords: the blank ones and those that are no id and part of no name |
| Resolve.ResolversAgreeIff | src/server/facility_service.c:10-62 | the two resolvers pick the same node iff the first deciding match is located or none in its tier is |
| Resolve.NamesakesDiffer | src/server/facility_service.c:10-62 | of two namesakes of which only the second is located, the route search takes the second and the facility search the first |
| Resolve.ResolversAgree | src/server/transfer_service.c:16-77 | they agree on every keyword when every node has coordinates |
| Files.ReadChunk | src/server/user_state_service.c:505-505 | one `fgets` with a 1024-byte buffer takes the next line, or 1023 bytes of a longer one, and the string in the buffer ends at its first zero byte |
| Files.ChunksCover | src/server/user_state_service.c:505-505 | the pieces read from a file without zero bytes make up the file, and only the last may be short without ending a line |
| Files.ReadBack | src/server/user_state_service.c:534-546 | non-blank lines of up to 1023 bytes without zero bytes written to a file are read back exactly |
| Recent.Remember | src/server/user_state_service.c:511-520 | append-or-shift on a fixed array keeps the last entries seen, in order |
| Recent.RecordParses | src/server/user_state_service.c:482-547 | a record that is not cut splits into kind, keyword and time in this order and parses back to its search |
| Recent.ParseRecordIff | src/server/user_state_service.c:550-655 | a line is listed as a search iff it is made of kind, keyword and time, none of them blank, with two bars between them |
| Recent.RecentStore.Add | src/server/user_state_service.c:482-547 | an accepted search leaves the last nineteen records of the old file followed by its own; a refused one changes nothing |
| Recent.RecentRun | src/server/user_state_service.c:482-547 | after any run with an accepted call the file is the last twenty of its non-blank old lines and the records of the calls, whatever bytes it held, zero bytes and overlong lines included |
| Recent.RecentStore.List | src/server/user_state_service.c:550-655 | lists the last twenty well-formed searches newest first as far as the guard admits them |
| Recent.RecentRunShows | src/server/user_state_service.c:550-655 | from any file: after a run with an accepted call the list shows, newest first, the well-formed ones among the last twenty of the old records followed by the new |
| Recent.RecentRunLists | src/server/user_state_service.c:550-655 | after a run on an empty store the list shows the last twenty accepted searches, newest first, and nothing else |
| RecentShown.ShowSearches | src/client/result_viewer.c:300-345 | the client cuts the list at separators and prints the items that have three fields |
| RecentShown.RecentRunShown | src/client/result_viewer.c:300-345 | after any run of searches on an empty store the user reads the last twenty accepted ones, newest first, each as kind, keyword and time, as many as fit the response |
| Recent.RecentResponseWhole | src/server/user_state_service.c:638-653 | the response is one whole line inside the buffer iff the buffer exceeds the header by two bytes or more |
| Favorites.FavoriteStore.Exists | src/server/user_state_service.c:79-116 | finds a key iff some line of the file carries it in its first two fields |
| Requests.NormalizeIff | src/server/user_state_service.c:44-76 | a typed word stands for a kind, and no other, iff it is one of the words of that kind, whatever space is around it |
| Requests.ParseAddOf | src/common/string_utils.c:121-164 | a favorite request reads as kind, id and name in this order, each without the space around it |
| Requests.AddRoundTrip | src/server/user_state_service.c:254-311 | the request a client sends for a sound favorite asks for that favorite |
| Favorites.FavoriteStore.Add | src/server/user_state_service.c:254-311 | appends the entry of a well-formed known request unless its key is stored, with the matching result code |
| Favorites.FavoriteStore.Delete | src/server/user_state_service.c:376-479 | rewrites the file without its n-th non-blank line when there is one and reports that line; otherwise changes nothing |
| Favorites.FavoriteStore.List | src/server/user_state_service.c:314-373 | lists the well-formed entries in file order as far as the guard admits them |
| Favorites.ItemIff | src/server/user_state_service.c:314-373 | a line is listed iff it is made of three parts that are not blank, and then with these in order |
| Favorites.FavoriteRun | src/server/user_state_service.c:254-479 | after any run of adds and deletes the file is the user's list line by line: sound entries, distinct keys, adds appended, deletes by position |
| Favorites.FavoriteRunLists | src/server/user_state_service.c:314-373 | the list shows exactly these entries in order, so the number shown is the number that deletes |
| Favorites.NumberDeletes | src/common/string_utils.c:99-119 | a typed number, signed or not, deletes: with a 32-bit long iff it names an entry; with a 64-bit long iff it is within its range and its low 32 bits name an entry |
| Favorites.WrappedNumbersDelete | src/common/string_utils.c:99-119 | with a 64-bit long 4294967297 and -4294967295 delete the first entry |
| Favorites.FavoriteResponseWhole | src/server/user_state_service.c:355-371 | the response is one whole line inside the buffer iff the buffer exceeds the header by two bytes or more |
| FavoriteNumbers.ShowFavorites | src/client/result_viewer.c:252-297 | the client cuts the list at separators and numbers the items that have three fields |
| FavoriteNumbers.NumberShownDeletes | src/client/result_viewer.c:252-297 | after any run of requests, whatever part of the list fits the response, the client prints the first entries with the numbers 1, 2, ... and sending such a number back deletes the entry it was printed with |
| FavoriteNumbers.NumbersAgreeIff | src/server/user_state_service.c:376-479 | for any file the listed numbers are the numbers that delete if and only if no malformed non-blank line stands before a well-formed one |
| FavoriteNumbers.MalformedShifts | src/server/user_state_service.c:376-479 | with a malformed line in front the list shows an entry as number 1, but deleting number 1 removes the malformed line |
| Numbers.StrToIntOfDecimal | src/common/string_utils.c:99-119 | a typed number is read back as itself within int range; beyond it, clamped to long and cut to 32 bits, for both widths of long |
| Numbers.NumberIff | src/common/string_utils.c:99-119 | a text is taken as a number iff it is space, at most one sign and at least one digit, with nothing behind |
| Numbers.TypedReads | src/common/string_utils.c:99-119 | and then it is the number it spells, clamped to long and cut to 32 bits |
| Responses.AddItem | src/server/user_state_service.c:355-367 | the guard, separator and item of a list loop: what it refuses is the first item without room |
| Responses.LineFits | src/server/search_service.c:537-558 | with any of the guards used, separators, admitted items, line end and terminator always fit |
| Responses.WholeLineIff | src/server/user_state_service.c:355-371 | a list response is a terminated line of complete items iff the buffer is at least two bytes longer than the header |
| Lookups.SearchStops | src/server/search_service.c:514-560 | the first hundred matching stops in list order as far as the guard admits them, or not found |
| ListItems.PrintList | src/client/result_viewer.c:73-120 | the client cuts a result list into items of up to four fields, the fourth keeping what is left |
| ListItems.RowsShown | src/client/result_viewer.c:73-120 | rows of two to four fields free of separators are printed as they were joined |
| SearchLaws.StopsShown | src/server/search_service.c:514-560 | from search to screen: the user sees the first stops in list order whose name contains the keyword or whose id it is, each as id, name and routes, at most a hundred and as many as fit |
| StationSearch.SearchStations | src/server/search_service.c:748-792 | the first twenty matching stations in list order as long as 300 bytes are free, the last one cut when it does not fit, then the line end if that fits |
| StationSearch.ClosedIsWhole | src/server/search_service.c:768-790 | a station response is a whole line iff everything it lists and the line end fit the buffer |
| StationSearch.WholeInAllBuffersIff | src/server/search_service.c:768-790 | that holds in buffers of every size if and only if no listed item with its separator takes more than 299 bytes |
| StationSearch.ItemSize | src/server/search_service.c:776-780 | an item of station fields within their buffers takes at most 359 bytes, and reaches 300 |
| StationSearch.WholeInServerBuffer | src/server/search_service.c:748-792 | in the 32768 bytes the server passes, up to twenty stations with fields within their buffers always form one whole line |
| SearchLaws.StationsShown | src/server/search_service.c:748-792 | in the server buffer the user sees the first twenty stations whose name, line, transfers or address contains the keyword or whose id it is, each as id, name, line and transfers or a dash |
| Lookups.FindFacilities | src/server/facility_service.c:65-133 | the first ten facilities of the resolved node in the category as far as the guard admits them, or not found |
| SearchLaws.FacilitiesShown | src/server/facility_service.c:98-132 | the user sees the first ten facilities of the node whose category contains the one asked for, or of every category when none or "all" is asked for, each as name, category, node and address, as many as fit |
| Lookups.SearchResponseWhole | src/server/facility_service.c:103-132 | a search response is one whole line inside the buffer iff the buffer exceeds the header by two bytes or more |
| FixedGuard.FitsInAllBuffersIff | src/server/search_service.c:768-790 | a guard that keeps a fixed number of bytes free lets only fitting lines through in every buffer if and only if every item with its separator is shorter than that |
| Text.Buffer.Append | src/common/string_utils.c:166-185 | appends all of the text with its terminator or nothing |
| Text.Buffer.Appendf | src/common/string_utils.c:188-210 | appends what fits and says whether that was all |
| Text.KeywordMatchMeans | src/common/string_utils.c:235-241 | a keyword matches a text iff it is not blank and the text is something, the keyword, something |
| Text.Buffer.Trim | src/common/string_utils.c:11-49 | in place: leading space, one byte-order mark, trailing space removed |
| Text.TrimmedIff | src/common/string_utils.c:11-49 | the trimmed text is exactly what is left between the leading space, one byte-order mark if it comes next, and the trailing space |
| BusSearch.SeenIsClash | src/server/search_service.c:334-344 | the string search finds a key iff it equals a stored one, or, from 130 bytes on, iff a stored one shares its first 130 bytes |
| BusSearch.ShortKeysExact | src/server/search_service.c:334-344 | for keys of at most 129 bytes the string search is set membership |
| BusSearch.SearchBuses | src/server/search_service.c:706-745 | shows the first ten ranked matches that clash with none kept before them, up to the first the size guard refuses, and writes their items stop by stop as far as they fit; the key string never runs out of room; the rows of `BusOrder` say what the ranking is |
| BusOrder.RankedIsStableSort | src/server/search_service.c:719-731 | the three passes are a stable sort: ranks never decrease and each rank keeps its displayable matches in list order |
| BusOrder.RankedUnique | src/server/search_service.c:719-731 | order and the sequence of each rank determine the list |
| BusOrder.RankedIsPermutation | src/server/search_service.c:719-731 | the passes meet every displayable match of rank one to three exactly as often as it is listed |
| BusOrder.FoundOrdered | src/server/search_service.c:706-745 | the ranks of the routes shown never decrease |
| BusOrder.BestFirst | src/server/search_service.c:706-745 | whenever something matches, the first route shown is the first in list order of the best rank there is |
| SearchLaws.BusItemFields | src/server/search_service.c:667-703 | the item of a route splits into number, label, start, end and stops, and the stops into their names in order |
| BusSearch.ListingIs | src/server/search_service.c:667-703 | as long as the items in full fit, they are what the buffer holds; once something is left out, the guard lets no further item through |
| BusSearch.CompleteIff | src/server/search_service.c:706-745 | a bus response is complete, every stop named and the line end behind, exactly when that fits the buffer |
| BusSearch.FoundCompleteIff | src/server/search_service.c:667-745 | for what a search of loaded data finds, that holds in buffers of every size if and only if no item with its separator takes more than 699 bytes |
| BusSearch.AllShown | src/server/search_service.c:720-735 | everything found is shown when the guard still has room after it |
| BusSearch.PlainIff | src/server/search_service.c:334-372 | that is the first ten of the ranked list with later equal keys dropped if and only if no match met before ten different keys is mistaken for an earlier one by the string search |
| BusSearch.ClashSurvives | src/server/search_service.c:334-344 | whether a key is taken for seen does not depend on the routes dropped before it |
| BusSearch.ShortKeysPlain | src/server/search_service.c:720-735 | keys of at most 129 bytes are never mistaken |
| BusSearch.LongKeysCollide | src/server/search_service.c:334-372 | of two routes whose longer keys agree in 130 bytes the later one is lost although its key is new |
| Csv.CsvRow.Parse | src/common/csv_parser.c:9-55 | the parsing loop fills the row with the scanned, cut and trimmed fields and their count |
| Csv.ReadsCleaned | src/common/csv_parser.c:23-54 | reading a written line yields the first 32 fields, each cut to 255 bytes and trimmed |
| Csv.CsvRoundTrip | src/common/csv_parser.c:9-55 | exactly the written fields come back iff there are at most 32 and none is changed by cutting and trimming, whichever optional quotes are used |
| Csv.TrimmedFieldsRoundTrip | src/common/csv_parser.c:9-55 | 1 to 32 trimmed fields of at most 255 bytes that do not begin with a byte-order mark come back exactly |
| Csv.CsvRow.FindHeader | src/common/csv_parser.c:58-71 | the first column of that name, or -1 when there is none |

## Left out

- FindPath: edge weights above INT_MAX − INT_MAX/4 are not covered, because the distance sum then overflows, which C leaves undefined.
- BuildGraph: the conversion of a distance to minutes is exact and unbounded; a distance too long for an `int` of minutes is undefined in C.
- Reserve: overflow of the doubled capacity and failed allocation are not modelled.
- What the client makes of an answer that arrives without its line end: how packets are collected is input and output.
- Sockets, the accept loop, client connection, request routing, logging, time stamps, directories, menus and printing: input and output only.
- Korean route-name heuristics and `route_match_rank`, which decide labels and ranks: string rules without a law of their own.
- The route text of a stop (`append_routes_for_stop`) beyond its seen-set, which is the one of the bus search.
- The wording of the answers to adding and deleting a favorite; their codes and effects are modelled.
- Whether a favorite's target exists in the data, and arrival, crowding and subway-distance lookups: one-line scans.
- CSV rows to structs in the `load_*` functions, `atof`, and freeing memory: field plumbing.
- The Python generator scripts and the data files.

# Verified models of a vendored PHP runtime

The repository carries large parts of the PHP 7.4 runtime in C. This project models seven of its
self-contained components, each in the form of its source, and proves what they are for:

- **The hybrid merge sort** (`StableOrder`, `MergeSearch`, `MergePass`, `MergeSort`). Two arrays of
  cells change roles in every pass. A cell holds an element, a run pointer, or the rest of one, so
  that the run list lives in the memory of the list that is not being read.
- **The FastCGI layer** (`FcgiRecord`, `FcgiWriter`, `FcgiReader`, `FcgiParams`, `FcgiArena`,
  `FcgiTable`, `FcgiHash`, `FcgiRequest`, `FcgiServe`, `FcgiLimits`, `FcgiBindings`). The packetiser
  over one buffer of 8208 bytes, its simple twin, the deframer on any input, the name-value codec, the chained hash
  with a segmented string arena, the request reader, and connections that carry several requests;
  sections 3.3, 3.4 and 5.1 to 5.3 of the FastCGI Specification 1.0.
- **The output handler stack** (`OutputSpec`, `OutputLaws`, `OutputCalls`, `Output`). Handlers are arbitrary functions
  that may answer differently at each call.
- **The thread-safe resource manager** (`TsrmSpec`, `Tsrm`, `TsrmRun`). Every call under the mutex is a
  sequence of small steps, each of which keeps one invariant over the tables and over the life of
  every resource.
- **Response headers** (`HeaderList`, `HeaderSpec`, `HeaderLaws`, `SapiHeaders`). In-place surgery on a doubly
  linked list, and header normalisation.
- **The portable alloca** (`Alloca`) and **the option parser** (`GetoptSpec`, `GetoptLaws`, `Getopt`). Two state
  machines whose properties are about whole runs.

Where a component changes state step by step, a class or a method with loops does what the source
does and is proved against functions on values; the laws are proved about those functions, and a
method that performs whole runs (`MergeSort.Sort`, `FcgiWriter.Run`, `FcgiReader.Transfer`,
`FcgiServe.ServeMany`, `Output.Session`, `TsrmRun.Session`, `SapiHeaders.Session`, `Alloca.Program`,
`Getopt.ReadAll`) carries them to the imperative code.

Transport is a sequence of bytes. The peer may stop accepting bytes at any point; a write that fails
is reported and nothing more is claimed about its partial result. Handler functions, comparators,
constructors, destructors, stack addresses and whether memory can be had are parameters. Characters
are bytes; case folding and white space are those of the C locale.

## What turned out different from what one would expect

- The name-value decoder refuses one kind of valid input: a last pair of empty name and empty value
  whose value length is written in four bytes, because the test for the four bytes asks for one byte
  more (`FcgiParams.DecodeEncoded` gives the exact condition, `FcgiParams.RefusedExample` an input).
- A PARAMS record whose content and padding together exceed 65535 bytes is refused although the
  specification allows it (`FcgiServe.Serve` says exactly when, for any padding;
  `FcgiLimits.LongRecordRefused` shows requests with one pair).
- `fcgi_read` does not skip the padding of the empty record that ends a stream
  (`FcgiReader.TerminatorPadding`), and neither does the request reader, so that the next request on
  the connection is lost (`FcgiLimits.BehindPaddedEnd`).
- When a header turns out unreadable, or padding is cut short, after bytes have been delivered,
  `fcgi_read` returns 0 or the length of the last piece instead of their number
  (`FcgiReader.ResultIsLength` is exact; `FcgiReader.LateHeaderExample`,
  `FcgiReader.ShortPaddingExample`).
- Any header of another type ends the PARAMS stream successfully, not only an empty PARAMS record
  (`FcgiLimits.EndsParams`).
- After a type switch the writer may emit an empty record; the two bodies do so in different states
  (`FcgiWriter.Writer.Write` and `FcgiWriter.Writer.WriteSimple` count exactly,
  `FcgiWriter.SwitchBehind` reaches both cases), which is why they agree on streams and not on records.
- The hash of a name of three bytes depends on the byte behind the name, so that a served environment
  may bind one name twice (`FcgiLimits.NamesBoundOnce` gives the exact condition,
  `FcgiBindings.TwiceBound` a request). A lookup hashes the NUL behind the name, and high bytes as
  negative characters where `char` is signed, so that it may miss a name that was sent
  (`FcgiLimits.NamesFound`).
- Flushing does not ask whether the active handler is disabled: the function of a disabled handler may
  still speak, and it shields the handler below it (`OutputLaws.FlushDisabledTop`,
  `OutputLaws.FlushFailedTop`, `OutputLaws.FlushDisabledExample`). A disabled active handler also takes
  the pop meant for the one below (`OutputLaws.PopDisabledTop`).
- Flushing all handlers ends at the first one that has nothing to pass on
  (`OutputLaws.FlushAllEmpties`, `OutputLaws.FlushAllExample`).
- A fast id whose reservation is used up leaves a record in the type table that was never written.
  While the table still has its zeroed room the record is harmless; beyond it the record is whatever
  the memory holds and the tables are no longer consistent (`Tsrm.Manager.AllocateFastId`,
  `TsrmRun.FullTableExample`).
- Ending a thread calls the destructor of a freed id with NULL (`Tsrm.Manager.FreeThread` says exactly
  when, `TsrmRun.NullExample` is a run); such calls are counted apart from destructing a resource.
- The option parser drops one `=` in front of an attached value and of the value of a long option even
  when it belongs to the value (`GetoptSpec.GivenIsRead`, `GetoptSpec.DoubleSignExample`), and takes
  the sign of `--name=` for a part of the name (`GetoptSpec.EmptyLongValue`).
- A DELETE of nothing but white space removes the headers that begin with a colon, and an ADD of
  nothing but white space stores an empty line (`HeaderSpec.OnlyWhiteSpace`).

## Model

| member | source | states |
|---|---|---|
| `MergeSort.Sort` | php_headers/mergesort.c:103-235 | for every length and every total-preorder comparator the call leaves in `base` a sorted sequence in which the elements of every equivalence class are those of the input in input order; it returns -1, with `base` unchanged, exactly for elements too small for a pointer or when the scratch list cannot be allocated |
| `StableOrder.StableSortUnique` | php_headers/mergesort.c:100-103 | two stable sorts of the same input are equal, so `Sort` computes the one stable sort |
| `StableOrder.StablePermutes` | php_headers/mergesort.c:100-103 | keeping every equivalence class in order makes the result a permutation of the input |
| `MergePass.MergeRuns` | php_headers/mergesort.c:134-224 | one pass over a run list: every run pointer is read before its slots are overwritten, the output is a stable rearrangement cut into sorted runs whose pointers are now beside the other list, and their number is halved, rounding up |
| `MergePass.MergeTwo` | php_headers/mergesort.c:137-222 | one round of the pass keeps the split between merged runs in front (pointers in `list1`) and untouched input behind (pointers in `list2`) |
| `MergePass.ReadPointers` | php_headers/mergesort.c:138-143 | the one or two pointers read are the next run boundaries, and both stretches are sorted |
| `MergePass.MergePair` | php_headers/mergesort.c:139-221 | the merge loop with its galloping search and the two tail copies writes exactly the textbook merge of the two runs into the same slots of the other list and changes no other slot |
| `MergePass.MergeStep` | php_headers/mergesort.c:144-210 | one round moves a block of one run and the element that stops it, which is what the textbook merge emits next |
| `MergePass.BlockFromLeft` | php_headers/mergesort.c:145-148 | the block found by scanning the left run for the right head (ties go left) followed by that head is a prefix of the merge |
| `MergePass.BlockFromRight` | php_headers/mergesort.c:149-153 | the same for scanning the right run, where ties stop the scan |
| `StableOrder.MergeIsStableSort` | php_headers/mergesort.c:144-221 | the textbook merge of two sorted sequences is the stable sort of their concatenation |
| `MergeSearch.FindSplit` | php_headers/mergesort.c:154-191 | for every starting value of `big` the linear, exponential, binary and halving searches stop where a plain linear scan stops; the new value of `big` is given exactly |
| `MergeSearch.ExponentialSearch` | php_headers/mergesort.c:161-190 | the exponential search with either ending finds the index of the linear scan |
| `MergeSearch.SplitIsLinearScan` | php_headers/mergesort.c:154-191 | in a run where the searched place is never passed again, any index that separates the two kinds of elements is the one of the linear scan |
| `MergeSort.Setup` | php_headers/mergesort.c:263-327 | the first pass leaves a stable rearrangement partitioned by the run list into sorted runs, of at least two elements when there are more than five |
| `MergeSort.CutStretch` | php_headers/mergesort.c:287-318 | a stretch of pairs with the same sense, taken pairwise below the threshold and by natural runs otherwise, extends the run list up to its end |
| `MergeSort.NaturalRuns` | php_headers/mergesort.c:301-318 | a natural stretch is cut where the sense breaks between two pairs, and descending runs are reversed |
| `MergeSort.LastNaturalRun` | php_headers/mergesort.c:311-317 | the last run of a stretch is joined to the sorted tail only when it is in order with it |
| `MergeSort.PairRuns` | php_headers/mergesort.c:295-300 | every pair of a short stretch becomes a sorted run of two |
| `MergeSort.OrientedRun` | php_headers/mergesort.c:304-312 | reversing a run whose neighbours all strictly descend, or leaving one whose neighbours do not, sorts it stably |
| `StableOrder.ReverseDescending` | php_headers/mergesort.c:246-255 | the reverse of a strictly descending run is its stable sort |
| `MergeSort.ReverseRun` | php_headers/mergesort.c:246-255 | the in-place reversal leaves the flipped stretch and nothing else changed |
| `MergeSort.InsertionSort` | php_headers/mergesort.c:334-346 | the insertion sort leaves the stable sort of its stretch and nothing else changed |
| `FcgiRecord.DecodeEncodeAll` | php_headers/fastcgi.c:996-1012 | records padded to multiples of eight decode back to themselves (section 3.3 of the FastCGI Specification 1.0) |
| `FcgiRecord.EncodedBytes` | php_headers/fastcgi.c:996-1012 | an encoded record byte by byte: version 1, type, identifier and length high byte first, the padding up to a multiple of eight, a zero, the content, and zeros |
| `FcgiWriter.Run` | php_headers/fastcgi.c:1541-1651 | for every sequence of writes and flushes followed by the final flush, with either body of the write function, the bytes on the wire decode to records of the request's identifier whose contents, joined by type, are exactly the bytes written by type, with one END_REQUEST record, the last; a wire that is complete ends in the 16 bytes of a record of type 3, with the identifier, 8 bytes of content, no padding and status zero |
| `FcgiWriter.BodiesAgree` | php_headers/fastcgi.c:1552-1646 | the optimised body and the disabled simple body put the same stream of every type on the wire |
| `FcgiWriter.RunStream` | php_headers/fastcgi.c:1541-1651 | when all writes use one record type no empty record is ever emitted, and all records carry the identifier of the request |
| `FcgiWriter.Writer.Write` | php_headers/fastcgi.c:1541-1651 | a successful call adds exactly the given bytes to the stream of its type, changes no other stream, and emits an empty record exactly when a type switch leaves no room behind a new header and the data is short enough to be buffered; in every state it leaves, a closed position is 0 and an open packet starts at a multiple of eight, is not empty and ends below 8192; data that fits in the buffer with room to spare is stored, never fails and leaves the packet open at the exact position |
| `FcgiWriter.Writer.WriteSimple` | php_headers/fastcgi.c:1552-1580 | the simple body does the same, with the same position after data that fits; an empty record appears exactly when a type switch leaves room for a header and nothing else |
| `FcgiWriter.SwitchBehind` | php_headers/fastcgi.c:1552-1634 | behind n bytes of one type, a byte of another type makes an empty record with either body for n from 8169 to 8176, with the optimised body alone for n from 8177 to 8183, and with neither for fewer bytes |
| `FcgiWriter.OneWrite` | php_headers/fastcgi.c:1541-1651 | the whole wire of one write that fits in the buffer and the final flush, byte by byte, for every type, identifier and content and with either body |
| `FcgiWriter.Writer.WriteLong` | php_headers/fastcgi.c:1613-1645 | long data leaves in records written directly behind their headers, all of 65528 bytes but the last of them, which has a multiple of eight, and the odd rest starts a new packet |
| `FcgiWriter.Writer.WriteFull` | php_headers/fastcgi.c:1616-1628 | the loop of the long case sends records of 65528 bytes each until what is left, at least eight bytes, fits in one record |
| `FcgiWriter.Writer.Flush` | php_headers/fastcgi.c:1511-1539 | everything written so far is on the wire as encoded records, followed, when asked for, by the END record, whose bytes (type 3, the identifier, length 8, status zero) are the last 16; closed positions are multiples of eight of at most 8192 plus a header, so padding, a late header and the END record always fit |
| `FcgiWriter.PadFits` | php_headers/fastcgi.c:996-1012 | a packet that starts at a multiple of eight and ends inside `out_buf` still does so with its padding, and then ends at a multiple of eight |
| `FcgiWriter.Writer.ClosePacket` | php_headers/fastcgi.c:1501-1509 | closing completes the header and padding of the open packet, so the buffer holds exactly the encoded records |
| `FcgiWriter.Writer.MakeHeader` | php_headers/fastcgi.c:996-1012 | the header bytes and the zero padding are those of section 3.3 of the FastCGI Specification 1.0 and nothing else in the buffer changes |
| `FcgiReader.Transfer` | php_headers/fastcgi.c:1216-1267 | chunks framed by the writer, ended by an empty unpadded record and read back with calls of any sizes give the original bytes in order, as many as were asked for |
| `FcgiReader.Reader.Read` | php_headers/fastcgi.c:1216-1267 | on any input, well-formed or not, the loop with its two ways of failing delivers the content bytes that have arrived, in order, up to the number asked for, also those of a record that is cut short, and leaves the others; at the end of what has arrived the result, the bytes left unread and whether the connection is kept depend on how it ends: in a header that cannot be read, an empty record, a record cut short, or padding cut short; on a well-formed stream these are exactly the next bytes, or all that are left before the terminating record |
| `FcgiReader.ReadsPending` | php_headers/fastcgi.c:1216-1267 | step by step, a call on a well-formed stream delivers the next bytes and leaves the rest of the stream pending, or all of it and the reader behind its end |
| `FcgiReader.ReadsArrived` | php_headers/fastcgi.c:1216-1267 | the same on values for any reading state: what has arrived is given by a grammar of its own over the bytes, record by record, with four ways of ending |
| `FcgiReader.ResultIsLength` | php_headers/fastcgi.c:1223-1264 | on any input the result is the number of bytes delivered, unless exactly after the call has delivered something it meets an unreadable header, or after more than one record padding that is cut short |
| `FcgiReader.LateHeaderExample` | php_headers/fastcgi.c:1225-1231 | an input on which one byte is delivered and the result is 0 |
| `FcgiReader.ShortPaddingExample` | php_headers/fastcgi.c:1250-1257 | an input on which two bytes are delivered and the result is 1 |
| `FcgiReader.PayloadOfStream` | php_headers/fastcgi.c:1216-1267 | non-empty STDIN records with any padding, followed by an empty one, carry exactly their contents |
| `FcgiReader.TerminatorPadding` | php_headers/fastcgi.c:1225-1236 | after a whole stream, with any padding of its records, the reader stands at the next record if and only if the terminating record was not padded: its padding is not skipped |
| `FcgiParams.DecodeEncoded` | php_headers/fastcgi.c:1014-1044 | every list of name-value pairs, encoded by section 3.4 of the FastCGI Specification 1.0 with any admissible choice of length forms, decodes to the same list in order, if and only if it does not end in a pair of empty name and empty value with a four-byte value length; such a list delivers all pairs but the last |
| `FcgiParams.LengthBytes` | php_headers/fastcgi.c:1014-1035 | the encoded lengths byte by byte: one byte below 128, or four, high byte first, the first with 128 added |
| `FcgiParams.RefusedExample` | php_headers/fastcgi.c:1029-1035 | a concrete valid encoding that the decoder refuses |
| `FcgiParams.ReplyNotRefused` | php_headers/fastcgi.c:1180-1199 | what the length rule of the GET_VALUES reply produces is never refused |
| `FcgiParams.NoWrap` | php_headers/fastcgi.c:1036-1039 | the unsigned sum of two 31-bit lengths does not wrap, so the bounds test is exact |
| `FcgiParams.HashedBehind` | php_headers/fastcgi.h:31-36 | in every decoded list each name is hashed together with the byte that follows it: the first of its value, of the next pair, or of what the memory holds behind the record; only for names of three bytes does that byte matter |
| `FcgiParams.LookupHits` | php_headers/fastcgi.c:1678-1692 | a lookup uses the hash under which a name was stored if and only if the name has other than three bytes or a NUL behind it, and, where char is signed, none of the hashed bytes is 128 or more |
| `FcgiArena.Arena.Strndup` | php_headers/fastcgi.c:310-328 | the copy lies in bounds, apart from every string handed out before; all of those keep their text and their place, and no segment is replaced, also when a new one is started |
| `FcgiArena.Arena.Reset` | php_headers/fastcgi.c:298-308 | cleaning keeps the first segment only, empty |
| `FcgiHash.Env.Bind` | php_headers/fastcgi.c:330-365 | setting keeps chains, list and the fill count of the bucket blocks consistent with the log of bindings, replaces a live binding in place or adds a bucket, and returns a stored copy of the value; strings handed out before stay where and as they are |
| `FcgiHash.Env.Unbind` | php_headers/fastcgi.c:367-384 | deleting takes the bucket out of its chain and leaves it in the list without a value |
| `FcgiHash.Env.Get` | php_headers/fastcgi.c:386-401 | a lookup finds exactly the value the finite map has for the key (hash and name) |
| `FcgiHash.Env.Apply` | php_headers/fastcgi.c:403-413 | the callback sees every live binding of the list, newest bucket first |
| `FcgiHash.Env.Clean` | php_headers/fastcgi.c:288-308 | cleaning leaves the empty hash and an empty arena; of the bucket blocks one is counted, unfilled |
| `FcgiHash.Env.Search` | php_headers/fastcgi.c:332-342 | walking one chain finds the live bucket of a key if there is one |
| `FcgiHash.Run` | php_headers/fastcgi.c:330-413 | any sequence of set, delete, get and clean behaves like the finite map, and applying afterwards visits exactly its bindings, each key once, from the key bound last to the one bound first, where binding a live key again keeps its place and binding a deleted one again makes it the newest |
| `FcgiTable.SetRefines` | php_headers/fastcgi.c:330-365 | setting in the log is updating the map |
| `FcgiTable.DelRefines` | php_headers/fastcgi.c:367-384 | deleting in the log is removing from the map |
| `FcgiTable.VisitsMap` | php_headers/fastcgi.c:403-413 | the visited pairs are exactly the bindings of the map, with no key twice, although dead buckets stay in the list |
| `FcgiTable.SetKeys` | php_headers/fastcgi.c:330-365 | in the order of creation a new key comes last and one that is bound keeps its place |
| `FcgiTable.DelKeys` | php_headers/fastcgi.c:367-384 | deleting takes the key out of that order and leaves the others |
| `FcgiTable.VisitsOrder` | php_headers/fastcgi.c:403-413 | the visited keys are those of the order of creation, backwards |
| `FcgiHash.LinkNew` | php_headers/fastcgi.c:343-364 | a new bucket in front of its chain keeps every slot reaching exactly its live buckets |
| `FcgiHash.UnlinkOld` | php_headers/fastcgi.c:369-383 | unlinking a bucket does too |
| `FcgiServe.Serve` | php_headers/fastcgi.c:1046-1152 | a request on a new connection (left-over empty STDIN records, BEGIN_REQUEST, PARAMS records of whole pairs, an empty PARAMS record; every record with any padding of up to 255 bytes) is accepted if and only if no PARAMS record exceeds 65535 bytes together with its padding and none ends in the refused pair; then the environment is FCGI_ROLE (its bytes are in FcgiBindings.RoleServed) followed by all pairs from left to right, later bindings of a key winning |
| `FcgiServe.ServeNext` | php_headers/fastcgi.c:1046-1152 | the same for the next request of a connection in any state; afterwards the connection stands behind the header that ended the request, at its padding if it has any, and nothing of earlier requests is in the environment |
| `FcgiServe.ServeMany` | php_headers/fastcgi.c:1046-1152 | requests one after another on a kept connection, ended by unpadded records and with left-over empty STDIN records between them, are served in order, each with an environment of its own, up to the first that cannot be served |
| `FcgiRequest.Request.ReadRequest` | php_headers/fastcgi.c:1046-1152 | success yields identifier, role, keep flag and PARAMS contents announced on the wire; the environment is built from FCGI_ROLE and the decoded pairs alone, so nothing survives from the request before; when no request is read, what is left of the input and in the environment is given byte by byte: a record of type 9 is read and its names are bound, and of any other unexpected or too long record only the header is read |
| `FcgiRequest.Request.GetEnv` | php_headers/fastcgi.c:1678-1685 | a lookup gives the value the environment has under the name and the hash of a lookup |
| `FcgiRequest.Request.ReadParams` | php_headers/fastcgi.c:1124-1152 | PARAMS records are read and bound up to the first header that is empty or of another type |
| `FcgiRequest.GetParams` | php_headers/fastcgi.c:1014-1044 | the decoder loop binds exactly the pairs the decoder function delivers, also when it fails half way |
| `FcgiServe.IncomingOfBytes` | php_headers/fastcgi.c:1046-1152 | an encoded request with any padding is recognised with exactly its contents if and only if every PARAMS record fits together with its padding |
| `FcgiServe.IncomingOfSent` | php_headers/fastcgi.c:1067-1077 | so it is behind any number of left-over empty STDIN records |
| `FcgiServe.ParamsOfBytes` | php_headers/fastcgi.c:1124-1152 | the same for the PARAMS stream alone |
| `FcgiServe.AcceptedBatches` | php_headers/fastcgi.c:1124-1152 | a recognised request is accepted if and only if none of its PARAMS records ends in the refused pair |
| `FcgiLimits.LongRecordRefused` | php_headers/fastcgi.c:1130-1138 | a request whose only pair takes 65529 to 65535 bytes is recognised when its record is not padded, and not when it is padded to a multiple of eight, whatever follows it |
| `FcgiLimits.LongRecordFits` | php_headers/fastcgi.c:1130-1138 | a request with a single pair is recognised if and only if the pair and the padding of its record take at most 65535 bytes |
| `FcgiLimits.BehindPaddedEnd` | php_headers/fastcgi.c:1124-1152 | behind a request that ends in a record padded with zeros, the next request is recognised if and only if there are none |
| `FcgiLimits.EndsParams` | php_headers/fastcgi.c:1130-1149 | a header ends the PARAMS stream, with the same result as an empty PARAMS record, if and only if it is empty or of another type |
| `FcgiLimits.ThreeByteHash` | php_headers/fastcgi.h:31-36 | the hash of a name of three bytes is 3 plus 4 times the byte behind it, 16 times its second byte and 4 times its third, so two occurrences have the same hash if and only if the bytes behind them are equal |
| `FcgiLimits.ServedKeys` | php_headers/fastcgi.c:1040-1040 | the keys of a served environment are FCGI_ROLE and, for every pair, its name with the hash of name and byte behind |
| `FcgiLimits.NamesBoundOnce` | php_headers/fastcgi.c:1040-1040 | a served environment binds every name once if and only if equal names of three bytes are followed by equal bytes |
| `FcgiLimits.OtherNamesBoundOnce` | php_headers/fastcgi.c:1040-1040 | so it does when no name has three bytes |
| `FcgiLimits.NamesFound` | php_headers/fastcgi.c:1678-1692 | a lookup finds a name in a served environment if and only if it is FCGI_ROLE or the name of a pair, followed on the wire by a NUL if it has three bytes, and no hashed byte is 128 or more where char is signed |
| `FcgiBindings.TwiceBound` | php_headers/fastcgi.c:1040-1040 | a request of role 1, given byte by byte, that is served with two bindings of the name ABC, with the hashes 1327 and 1331, and with FCGI_ROLE bound to RESPONDER |
| `FcgiBindings.Recognised` | php_headers/fastcgi.c:1046-1125 | behind empty records of type 5 a request is recognised if and only if the next record has type 1, 8 bytes of content that are all there with their padding, and a role from 1 to 3, and its PARAMS stream can be read; identifier and keep flag are the bytes 2 and 3, and the lowest bit of byte 10 |
| `FcgiBindings.ParamsRecord` | php_headers/fastcgi.c:1124-1152 | the PARAMS stream byte by byte: a header of type 4 with content goes on when content and padding take at most 65535 bytes and are all there, and any other header ends the stream |
| `FcgiBindings.LastPairBound` | php_headers/fastcgi.c:1040-1040 | in a served environment every key has the value of the last pair that binds it, among all records |
| `FcgiBindings.LastNamedBound` | php_headers/fastcgi.c:1040-1040 | so has every name of other than three bytes |
| `FcgiBindings.NameHashBytes` | php_headers/fastcgi.h:31-36 | the hash of a name of other than three bytes is its length, and from three bytes on also 4 times its fourth byte, 16 times its last byte but one and 4 times its last |
| `FcgiBindings.RoleServed` | php_headers/fastcgi.c:1105-1120 | in a served environment the bytes FCGI_ROLE, with the hash 1793, are bound to RESPONDER, AUTHORIZER and FILTER for the roles 1, 2 and 3, unless a pair has this name, and then to the value of the last such pair |
| `FcgiRequest.SetAllRefines` | php_headers/fastcgi.c:1124-1152 | binding pairs from left to right is the left-to-right fold over the map |
| `FcgiRequest.DecodeFrame` | php_headers/fastcgi.c:1014-1044 | whether bytes decode does not depend on what follows them in memory |
| `OutputSpec.RunConserves` | php_headers/output.c:882-1245 | in every run with handlers that pass data through or fail at arbitrary calls, the bytes sent followed by the buffers from bottom to top are all bytes printed, in order, and a failed handler holds nothing |
| `OutputSpec.TopDownConserves` | php_headers/output.c:1035-1134 | one operation passing through the stack neither loses nor reorders bytes |
| `OutputSpec.FlushConserves` | php_headers/output.c:266-283 | flushing moves bytes towards the bottom and loses none |
| `OutputSpec.PopConserves` | php_headers/output.c:1195-1245 | ending a handler without discarding does too |
| `OutputSpec.EndAllConserves` | php_headers/output.c:336-339 | ending all handlers sends everything and empties the stack |
| `OutputSpec.DisabledTransparent` | php_headers/output.c:1090-1134 | writing and flushing all handlers, the two operations that pass through the stack, act as if a disabled handler anywhere in it were not there |
| `OutputLaws.FlushTransparent` | php_headers/output.c:266-283 | flushing acts so too when the disabled handler is not the active one |
| `OutputLaws.PopTransparent` | php_headers/output.c:1195-1245 | ending or discarding the active handler acts so too when the disabled one is another |
| `OutputLaws.EndAllTransparent` | php_headers/output.c:336-339 | ending all handlers does, wherever the disabled one is |
| `OutputLaws.FlushDisabledTop` | php_headers/output.c:266-283 | with a disabled active handler, flushing acts as if it were not there, whatever its function is, if and only if neither it nor the handler below it may be flushed |
| `OutputLaws.FlushFailedTop` | php_headers/output.c:266-283 | when its function passes data through or fails, that is so if and only if the handler below it may not be flushed |
| `OutputLaws.FlushDisabledExample` | php_headers/output.c:266-283 | a disabled handler that speaks when it is flushed, and one that keeps the handler below it from being flushed |
| `OutputLaws.PopDisabledTop` | php_headers/output.c:1195-1245 | a disabled active handler takes the pop from the one below it; that makes no difference if and only if that one would have stayed or does not exist |
| `OutputLaws.FlushAllEmpties` | php_headers/output.c:285-292 | flushing all handlers leaves nothing in a buffer if and only if there was nothing, or there are bytes in the topmost enabled handler that does not simply fail without any |
| `OutputLaws.DeciderIsTopEnabled` | php_headers/output.c:285-292 | without failing functions that handler is the topmost enabled one |
| `OutputLaws.FlushAllExample` | php_headers/output.c:285-292 | an empty handler above a full one, flushed without anything being sent |
| `OutputSpec.EndAllComposes` | php_headers/output.c:336-339 | ending all unchunked, enabled, non-failing handlers terminates with an empty stack and sends f0(b0 ++ f1(b1 ++ ... fk(bk))) |
| `OutputCalls.Prints` | php_headers/output.c:882-1134 | printing, handler by handler: without one the bytes are sent, a disabled one passes them on, others store them, until a chunked buffer is full; then the function is asked for operation 0, or 1 at its first call, and what it answers goes below |
| `OutputCalls.Flushes` | php_headers/output.c:266-283 | flushing the active handler: if it may be flushed its function is asked for operation 4, or 5 at its first call, on what is stored, even when it is disabled |
| `OutputCalls.FlushesAll` | php_headers/output.c:285-292 | flushing all handlers: each enabled one is asked for operation 4, or 5, on what is stored and what came from above, and an empty answer ends the operation |
| `OutputCalls.Pops` | php_headers/output.c:1195-1245 | ending the active handler, if it may be removed or that is forced: an enabled one is asked for operation 8, or 9, and what it hands on is written below it unless it is discarded |
| `OutputCalls.Ends` | php_headers/output.c:323-339 | ending one handler asks whether it may be removed, and ending all does not |
| `OutputCalls.RunAsksOnly` | php_headers/output.c:945-948 | in every run with functions that answer anything, what is sent and kept depends on nothing but their answers to the operations 1, 5 and 9 at their first call and 0, 4 and 8 at later ones: START is told at the first call and at no other |
| `OutputCalls.HeadingOnce` | php_headers/output.c:945-948 | a handler that puts H in front of what it gets with START sends H once, in front of everything that is printed, whatever is printed and flushed, with or without chunks |
| `Output.Session` | php_headers/output.c:541-1245 | any run of commands on the real stack, ended by ending all handlers, sends what the specification says (command by command in OutputCalls); with handlers that pass data through or fail, exactly the bytes printed |
| `Output.Layer.Op` | php_headers/output.c:1035-1086 | the dispatcher with its empty, single-handler and stack-walk cases does what the specification says; the active handler stays the stack top and levels are indices |
| `Output.Layer.Walk` | php_headers/output.c:1090-1134 | the walk from the top down with its swapping of context buffers passes exactly the right bytes on |
| `Output.Layer.Flush` | php_headers/output.c:266-283 | the active handler is off the stack while its output is written to the handlers below, and back on it afterwards |
| `Output.Layer.Pop` | php_headers/output.c:1195-1245 | popping finalises an enabled handler, removes it, makes the next one active and passes the output on unless it is discarded |
| `Output.Layer.EndAll` | php_headers/output.c:336-339 | the loop empties the stack |
| `Output.Handler.Run` | php_headers/output.c:910-1031 | one handler operation: storing, START added at the first call and at no other, failing with the buffer handed out, and eating all |
| `Output.Handler.Append` | php_headers/output.c:882-906 | the input is stored within the grown capacity, and a chunked buffer that is full has to be processed |
| `TsrmRun.Session` | TSRM/TSRM.c:189-637 | for any run of calls of any threads ended by the shutdown, the ids and the destructor calls on NULL are those of the run on values; every resource the run ever put in a slot was constructed once if its id has a constructor and destructed once if it has a destructor, and no other was |
| `TsrmRun.Perform` | TSRM/TSRM.c:296-637 | each call takes the real tables to those of the step on values, with the resources built so far counted once each |
| `TsrmRun.GrewToFull` | TSRM/TSRM.c:265-293 | in the new table every entry has kept its slots and got its own resource in each missing one |
| `TsrmRun.NullExample` | TSRM/TSRM.c:575-579 | a run of four calls in which a destructor is called on NULL |
| `Tsrm.Manager.AllocateId` | TSRM/TSRM.c:296-330 | a new id: every linked entry has a slot for every id afterwards, exactly the missing slots were constructed, and the mutex is free |
| `Tsrm.Manager.AllocateFastId` | TSRM/TSRM.c:342-388 | the same for an id in the reserved memory of the entries; when the reservation is used up, the call fails after using up an id, and the tables stay consistent if and only if the call succeeds or the type table had room (otherwise the id's record is whatever the memory holds) |
| `TsrmRun.FullTableExample` | TSRM/TSRM.c:351-357 | a new manager without a reservation and without room in its type table: the first fast allocation leaves the tables inconsistent |
| `Tsrm.Manager.UpdateActiveThreads` | TSRM/TSRM.c:265-293 | enlarging the threads' storage constructs each missing slot once and keeps all others |
| `Tsrm.Manager.AllocateNewResource` | TSRM/TSRM.c:391-431 | the new entry is linked in the bucket of its thread with a slot for every id that has not been freed, and the mutex is free afterwards |
| `Tsrm.Manager.Fetch` | TSRM/TSRM.c:436-495 | the locked path answers from the entry of the thread, which is created first when there is none, with NULL if the id has been freed and with the thread's own resource for the id otherwise; nothing else changes and the recursion ends |
| `Tsrm.Manager.FreeThread` | TSRM/TSRM.c:560-602 | exactly the entry of the thread is destructed and unlinked; the destructor calls on NULL are as many as the ids that the entry covers, that were freed and that have a destructor |
| `Tsrm.NullCallsMade` | TSRM/TSRM.c:575-579 | the loop over the slots makes one such call for each of these ids: their number is the size of their set |
| `Tsrm.Manager.FreeId` | TSRM/TSRM.c:605-637 | afterwards the id is NULL in every linked entry, nothing else changed, and the id is marked as freed |
| `Tsrm.Manager.Shutdown` | TSRM/TSRM.c:189-222 | after the shutdown every resource has been destructed as often as is due |
| `Tsrm.OneEntryPerThread` | TSRM/TSRM.c:461-489 | a thread has at most one entry, in its hash bucket |
| `Tsrm.FreedIsNull` | TSRM/TSRM.c:414-416 | in every linked entry, present or future, a slot is NULL exactly when its id has been freed, and otherwise holds the entry's own resource |
| `Tsrm.FastSlotsDisjoint` | TSRM/TSRM.c:342-388 | two fast ids never share a byte of an entry and both stay inside the memory allocated for it |
| `TsrmSpec.AddSlotKeeps` | TSRM/TSRM.c:277-287 | one more constructed slot keeps the invariant |
| `TsrmSpec.ClearSlotKeeps` | TSRM/TSRM.c:620-629 | destructing and clearing a slot of the id being freed keeps it |
| `TsrmSpec.LinkKeeps` | TSRM/TSRM.c:391-431 | linking a filled entry keeps it |
| `TsrmSpec.UnlinkKeeps` | TSRM/TSRM.c:573-593 | destructing and unlinking an entry keeps it |
| `TsrmSpec.AddKindKeeps` | TSRM/TSRM.c:302-323 | recording an id keeps it |
| `TsrmSpec.EndFreeKeeps` | TSRM/TSRM.c:632-632 | marking a cleared id as freed keeps it |
| `HeaderSpec.ReplaceLaw` | php_headers/SAPI.c:632-651 | in a list without NUL a REPLACE with a line that, without its trailing white space, is legal, has a colon and is no status line succeeds and leaves exactly one header of its name ignoring case, the last one, with the others as they were and in the same order |
| `HeaderSpec.DeleteLaw` | php_headers/SAPI.c:714-727 | in a list without NUL, for every line: a DELETE succeeds if and only if the line is not empty and no colon is found in it (one behind a NUL is not found), and then leaves no header of that name and all others in order; otherwise nothing changes |
| `HeaderSpec.OnlyWhiteSpace` | php_headers/SAPI.c:704-836 | a line of white space only is accepted: deleting it removes the headers that begin with a colon, adding it stores an empty line |
| `HeaderSpec.MatchesIsNamed` | php_headers/SAPI.c:597-599 | for lines without NUL the byte test of the removing loop is equality of header names ignoring case, for every name that a DELETE accepts |
| `HeaderSpec.OpKeepsLegal` | php_headers/SAPI.c:728-745 | no stored line ever contains CR, LF or NUL, given a default charset free of them |
| `HeaderSpec.StoredName` | php_headers/SAPI.c:762-796 | rewriting a content type keeps the header's name up to case |
| `HeaderSpec.FailureKeeps` | php_headers/SAPI.c:653-745 | a call that fails changes nothing |
| `HeaderLaws.Accepts` | php_headers/SAPI.c:653-745 | once the headers are sent, and some are to be, every line is refused; otherwise a line is accepted if and only if it is not empty and, without the white space behind it, free of CR, LF and NUL |
| `HeaderLaws.Plainly` | php_headers/SAPI.c:668-698 | deleting all headers and setting the response code, which drops the status line when the code changes |
| `HeaderLaws.SameNameIsLower` | php_headers/SAPI.c:767-823 | names are compared letter by letter, and only the case of A to Z is ignored |
| `HeaderLaws.ContentTypes` | php_headers/SAPI.c:762-796 | an accepted line named content-type in any case is stored as Content-type with the charset added if and only if there is a default charset, the value behind the blanks begins with text/ and charset= occurs nowhere in it, and as it was given otherwise; the first such type is remembered |
| `HeaderLaws.OtherLines` | php_headers/SAPI.c:757-836 | a line of another name, or without a colon, is stored as it is, and the code of the call is set |
| `HeaderLaws.Redirects` | php_headers/SAPI.c:808-822 | a location sets the code of the call, and without one 303 for methods other than GET and HEAD from HTTP/1.1 on and 302 otherwise, unless the code is 201 or from 300 to 399 |
| `HeaderLaws.Authenticates` | php_headers/SAPI.c:823-833 | a request for authentication sets 401, and then the code of the call; the status line stays only if neither changes the code |
| `HeaderLaws.StatusLines` | php_headers/SAPI.c:552-566 | a status line is remembered and not stored, and its code is the number behind the first blanks, with its sign, 0 if there is none, and 200 without any blank |
| `HeaderList.List.Remove` | php_headers/SAPI.c:591-613 | every matching node is taken out of the doubly linked list, the others stay in order, and links, head, tail and count stay consistent |
| `HeaderList.List.Unlink` | php_headers/SAPI.c:600-611 | taking one node out keeps all links, both ends and the count right |
| `HeaderList.List.Add` | zend_headers/zend_llist.c:34-49 | appending a node does too |
| `HeaderList.List.Clean` | zend_headers/zend_llist.c:102-123 | cleaning empties the list |
| `HeaderList.WithoutKeeps` | php_headers/SAPI.c:591-613 | what is left is exactly what does not match |
| `SapiHeaders.Sapi.Op` | php_headers/SAPI.c:653-836 | every header operation with all its checks, the status line, the content-type rewriting and the response codes does what the specification says (line by line in HeaderLaws) |
| `SapiHeaders.Session` | php_headers/SAPI.c:653-836 | any run of operations leaves the lines of the specification, free of CR, LF and NUL for a clean default charset |
| `SapiHeaders.ApplyDefaultCharset` | php_headers/SAPI.c:367-386 | the charset is added to what HeaderLaws.ContentTypes says and to nothing else, the new length is right and the buffer of that length is never truncated |
| `SapiHeaders.NewHeader` | php_headers/SAPI.c:786-794 | the rebuilt header fits its buffer exactly |
| `SapiHeaders.CutSpaces` | php_headers/SAPI.c:706-712 | all trailing white space is cut off |
| `SapiHeaders.CheckLine` | php_headers/SAPI.c:728-745 | a line passes if and only if it contains no CR, LF or NUL |
| `Alloca.RunKeeps` | php_headers/alloca.c:151-214 | in every run of calls, returns and allocas the header chain is ordered by depth and no freed block belongs to a call that has not returned |
| `Alloca.ReclaimsTheDeeper` | php_headers/alloca.c:173-187 | stopping at the first block that is not deeper reclaims exactly all deeper blocks |
| `Alloca.ReclaimsInRuns` | php_headers/alloca.c:151-195 | so it does in every run |
| `Alloca.Allocator.Alloca` | php_headers/alloca.c:151-214 | a call frees the front of the chain up to the first block that is not deeper and pushes the new block, or none for size 0 |
| `Alloca.LiveBlocksStay` | php_headers/alloca.c:151-214 | every block ever allocated for a call that has not returned is still in the chain |
| `Alloca.RunNames` | php_headers/alloca.c:151-214 | no run frees a block twice or has it in the chain again |
| `Alloca.Program` | php_headers/alloca.c:151-214 | the run on the real chain of headers, in either stack direction, keeps exactly these blocks |
| `GetoptSpec.Progress` | php_headers/getopt.c:57-196 | every call that does not report the end moves to a later argument, never past the end, or to the next character of the same argument; a call that does stays where it is or steps over `--` |
| `GetoptSpec.ReadBack` | php_headers/getopt.c:57-196 | a command line written from any list of options (clusters of flags, also in front of an option with an attached, `=` or separate parameter, optional parameters left out, long options), followed by anything that is not an option, is read back as that list in order, and reading stops there; an attached value and the value of a long option lose one leading `=` |
| `GetoptSpec.GivenIsRead` | php_headers/getopt.c:155-178 | an option is read with the parameter that was written if and only if that is not an attached value or the value of a long option beginning with `=` |
| `GetoptSpec.DoubleSignExample` | php_headers/getopt.c:155-178 | `--name==v` is read as the value v |
| `GetoptSpec.EmptyLongValue` | php_headers/getopt.c:102-117 | a long option with a sign and nothing behind it is looked up with the sign in its name: without such a name it is an error, and with one it is read like a long option without a sign |
| `GetoptLaws.Ends` | php_headers/getopt.c:72-97 | the end is reported at the end of the command line, and unless an argument is being read at an empty one, one without a dash, - and --, which is stepped over; and nowhere else |
| `GetoptLaws.FoundInTable` | php_headers/getopt.c:109-192 | whatever is found is in the table before its end: the character that is read, or that of an entry with the name of the long option |
| `GetoptLaws.IndexMeans` | php_headers/getopt.c:109-153 | the search gives the first entry before the end of the table that is accepted |
| `GetoptLaws.UnknownShort` | php_headers/getopt.c:127-149 | a short option that is not in the table is an error and the rest of its argument is still read; a colon is an error and drops the rest |
| `GetoptLaws.MissingParameter` | php_headers/getopt.c:155-165 | an option without its required parameter at the end of the command line is an error |
| `GetoptLaws.UnknownLong` | php_headers/getopt.c:102-117 | a long option that is not in the table, with or without a value, is an error, and the next argument is read |
| `Getopt.Scanner.Getopt` | php_headers/getopt.c:57-196 | one call with its static position, character tests and table loops does what the specification says, never reads outside an argument or the table, and forgets its position for another `optarg` |
| `Getopt.Scanner.Long` | php_headers/getopt.c:89-121 | `--name` and `--name=value`, where a final `=` belongs to the name |
| `Getopt.Scanner.Short` | php_headers/getopt.c:122-195 | one option of a cluster |
| `Getopt.Scanner.Param` | php_headers/getopt.c:155-178 | the forms of a parameter, required and optional |
| `Getopt.ReadAll` | php_headers/getopt.c:57-196 | the option loop terminates and collects what the specification drives out |

## Left out

- Byte-level layout of the sort: a run pointer is one cell that also covers the next one; the aligned
  address computed by the pointer macro and the copying by words or bytes are not modelled.
- Output handlers that clean, discard everything or disable output, the lock against output from
  inside a handler, handler conflicts, the default headers sent with the first byte, and the
  partial buffers of user callbacks.
- Sockets, the accept loop, allowed clients, read errors (the input can only end), and the bytes of
  the GET_VALUES reply (only its length rule is modelled).
- The protocol status and application status of the END record are fixed by the source; its three
  reserved bytes are whatever the buffer held and are left open.
- FcgiWriter.Writer.Write: a failed transport write leaves only the report -1 and the mark that the
  connection is broken.
- The bucket blocks of the hash: the buckets are one sequence, and of the blocks only their number and
  how far the newest is filled are kept, so that allocating and freeing them is not modelled.
- FcgiServe.ServeMany: requests that end in a padded record, and padding of the left-over empty STDIN
  records, because the source does not skip that padding.
- FcgiRequest.Request.Dispatch: reads a GET_VALUES record and binds its names, but the answer is left out.
- In the resource manager, entries are values in their bucket's sequence, so `next` pointers, the
  thread-local pointer to the entry and its unlocked fast path are not modelled, nor are interpreter
  contexts that are not linked, the callbacks at the start and end of a thread, and running out of
  memory.
- Tsrm.Manager.Fetch: the range of an id is a precondition, because the source does not test it
  outside its debugging mode.
- TsrmRun.Session: calls with ids that were never handed out are skipped, because the source does not
  test the range; so is the failing fast allocation with a full type table, after which nothing holds.
- Tsrm.Manager.Shutdown: only the call of the main thread that has any effect.
- SapiHeaders.Sapi.Op: without a header handler of the server interface; the change of the output
  compression setting, warnings, and header lines of 4 GB and more are not modelled, and numbers in
  status lines do not overflow.
- Alloca.Program: all allocas of one call see their probe at the same depth and those of a call made
  from it see it deeper; a program that violates this is outside the model.
- Getopt.Scanner.Getopt: the text of error messages.
- `main.c`, `php_ini.c`, `fopen_wrappers.c`, the PHP-CPP headers and the bridge code: start-up,
  configuration and conversions around libraries that are not part of this model.

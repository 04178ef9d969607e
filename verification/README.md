# Elegram: a verified model

Elegram is a chat client and server that exchange length-prefixed protobuf messages over
TCP. This project models what both do with those messages, from bytes to tables to the
rows of a view, and proves what holds in every run.

Verify it with `dafny verify dfyconfig.toml` (Dafny 4.11).

## What is modelled

| module | subject |
|---|---|
| Basics, Wire | bytes, varints, fixed64, length-delimited records, UTF-8 |
| Schema, Codec, CodecLaws | the message types, serializing, parsing, sizes and merging as functions, and their laws |
| Messages | the generated classes as objects: the parser with its shortcuts, cached sizes, the serializer, oneofs, MergeFrom |
| Protocol, Framing, WireFormat | the requests and responses, the nine-byte prefix, and both byte by byte |
| Relations, Storage | the tables, each transaction as one step, and the statements that make it up |
| ServerSpec, ServerEffects | the server one request at a time, what every run of it keeps, and what each request achieves |
| ServerSession, ServerJobs, ServerProtocol | the session and its jobs as the source writes them, and all sessions at once with two workers |
| Reassembly | how the client puts a response together, and exactly when it succeeds |
| Client | facade lock, jobs, callbacks and socket handler |
| Lockstep, EndToEnd | clients, network and concurrent server together, and what an operation achieves |
| MessagesView | the message cache and the row changes it announces |

Where the source updates objects in place the model has classes whose methods follow the
source statement by statement; each is proved equal to a function of the old state, and
the laws are proved about those functions. The codec is driven by a table: the 21 generated
classes are instances of three templates (scalar fields, at most one submessage, one
repeated field), and in each of them the field numbers are 1, 2, 3, and so on.

The concurrent server is a step relation. A step completes one outstanding activity of one
session. A job reads the session state in one step, makes its storage call in a later one
and writes its response in a third, with steps of other sessions between. The sequential
server it refines runs the storage calls in the order they were made.

## Assumptions

- The protobuf runtime is not part of the repository. Its primitives follow the Protocol
  Buffers Encoding specification (sections "Base 128 Varints", "Message Structure" and
  "Length-Delimited Records"): varints of at most ten bytes, taken modulo 2^64; tags modulo
  2^32; lengths kept at full width, where the runtime reads a varint of 32 bits (no
  difference for a length that fits its message, unless it is written with a value of 2^32
  or more); field number 0, groups, and a declared length beyond the enclosing message make
  parsing fail. Text is valid UTF-8 as in section 4 of RFC 3629.
- The schema is that of `server/tests/gen_schema.sql`: `Client.email` and the pairs of
  ClientToContact are unique, foreign keys are enforced, ClientToChat has no uniqueness (a
  chat with oneself gets two rows of the same client). The serial columns of Client and Chat
  count independently; each supplies an id not yet used in its own table, so a chat may have
  the id of a client. Transactions are serialized; whether one commits is decided outside the model,
  and one that does not commit changes nothing. Query results come in any order.
- SHA-256 is an arbitrary function of the password.
- create_chat for an unknown friend dereferences an empty result
  (`server/src/storage/postgresql_storage.cpp:215`); the model rejects the request.
- A serialized packet is smaller than 2 GiB, so that its size is a C++ int.
- Module Lockstep assumes that a socket error ends the connection for good, that a
  connection starts with `m_bytesReaded` 0, and that no two notifications fall between the
  prefix of a response and its end. ReassemblyIff and StaleReaderIff show what happens
  without the last two.

## What turned out otherwise than expected

- MergeFrom is not associative: with the oneof going to another member and back, grouping
  decides whether the first value is lost. MergeAssociativeIff gives the exact condition.
- The last `else` of onReadyRead forgets a prefix that was already taken. A response then
  never comes through. ReassemblyIff gives the exact condition, ResponseIsLost a split of
  every response that fails it.
- connect does not reset `m_bytesReaded`. StaleReaderIff says exactly when the next
  connection's first response is still delivered; StaleReaderLoses loses one that comes in
  one piece.
- setItems files a response under the chat that is current when it arrives, which need not
  be the one it was requested for: FiledUnderAnother is a run of that kind, and
  LoadedMessagesFiledIff the exact condition in the whole system.
- An empty list or vector is announced as the row range 0 to -1; the postconditions of
  SetCurrentChatId and SetItems say when.
- `server/tests` expects a StatusResponse to a login; the jobs and `docs/server.md` use a
  LoginResponse with an optional profile, and the model follows the code.

## Model

| member | source | states |
|---|---|---|
| Wire.VarintReadsBack | client/src/protobuf/messages.pb.cc:1992-2043 | Reading a varint returns the 64-bit number that was written, and its length, whatever bytes follow |
| Wire.RawVarintReadsBack | client/src/protobuf/messages.pb.cc:1992-2043 | The same for any budget of bytes that covers the number |
| Wire.Fixed64ReadsBack | client/src/protobuf/messages.pb.cc:7900-7921 | Eight little-endian bytes give back every 64-bit number: the payload of LengthPrefix |
| Wire.DelimitedReadsBack | client/src/protobuf/messages.pb.cc:7535-7554 | A length-delimited payload is read back as its body and consumes exactly its bytes |
| Wire.ReadRecordIgnoresTail | client/src/protobuf/messages.pb.cc:768-847 | A complete record (tag and payload of any non-group wire type) reads the same whatever follows it |
| Wire.ReadRecordOneByteTag | client/src/protobuf/messages.pb.cc:768-847 | For a tag below 128 the generic tag read and the single byte that ExpectTag compares agree |
| Wire.Utf8Concat | server/src/storage/postgresql_storage.cpp:213-216 | Concatenated valid UTF-8 is valid UTF-8, so the titles made by create_chat can be serialized |
| Wire.ReadVarintIff | client/src/protobuf/messages.pb.cc:1992-2000 | A varint is read in any form, over-long ones included: its size is the bytes up to the first below 128, at most ten, its value what their groups make, modulo 2^64 |
| Wire.ReadTagIff | client/src/protobuf/messages.pb.cc:774-776 | A tag likewise, modulo 2^32 |
| Wire.Fixed64Bytes | client/src/protobuf/messages.pb.cc:7896-7906 | A fixed64 is its eight bytes, the least significant first |
| Wire.RecordsRead | client/src/protobuf/messages.pb.cc:828-836 | Records of the four wire types that have a payload are read with exactly that payload and size |
| Wire.NoRecord | client/src/protobuf/messages.pb.cc:828-836 | Groups, wire types 6 and 7, and field number 0 are no records |
| Wire.Utf8Iff | client/src/protobuf/messages.pb.cc:780-786 | A string passes the UTF-8 check if and only if it is the encoding of a sequence of Unicode scalar values, stated by arithmetic on the values |
| Schema.TagsOfProtocol | client/src/protobuf/messages.pb.cc:3423-3524 | The tags of all fields of all types are the numbers the generated switches compare with |
| Schema.ProtocolIsCompact | protocol/messages.proto:55-141 | Every type has field numbers below 16, so every declared tag is one byte |
| Schema.Default | client/src/protobuf/messages.pb.cc:761-766 | A constructed or cleared message is a well-typed value |
| CodecLaws.SizeIsLength | client/src/protobuf/messages.pb.cc:3664-3733 | The size computation equals the number of bytes the serializer emits, for every type and depth |
| CodecLaws.ParseConcat | client/src/protobuf/messages.pb.cc:3413-3545 | Parsing x ++ y is parsing x and then parsing y into the result, for every x that parses |
| CodecLaws.ValRecordReadsBack | client/src/protobuf/messages.pb.cc:768-923 | One serialized scalar field is read as one record of its own number and wire type, with its value |
| CodecLaws.ValsParseAsMerge | client/src/protobuf/messages.pb.cc:885-990 | Parsing the serialized fields of b, default ones skipped, into a message a overrides in a what is not default in b |
| CodecLaws.ManyParseAsMerge | client/src/protobuf/messages.pb.cc:4897-5011 | Parsing a serialized repeated field appends its elements |
| CodecLaws.ParseEncoded | client/src/protobuf/messages.pb.cc:3413-3794 | For all a and b of one type, parsing serialize(b) into a is a.MergeFrom(b), through oneofs, nesting and repetition |
| CodecLaws.RoundTrip | client/src/protobuf/messages.pb.cc:7461-7554 | Parsing a serialized message succeeds, consumes every byte and returns an equal message, for every well-typed tree below 2 GiB |
| CodecLaws.EncodeInjective | client/src/protobuf/messages.pb.cc:7461-7554 | Two messages have the same serialization if and only if they are equal |
| CodecLaws.ConcatIsMerge | client/src/protobuf/messages.pb.cc:7461-7620 | Parsing serialize(a) ++ serialize(b) gives a merged with b |
| CodecLaws.MergeIntoDefault | client/src/protobuf/messages.pb.cc:3752-3794 | A cleared message is a left unit of MergeFrom |
| CodecLaws.MergeDefault | client/src/protobuf/messages.pb.cc:3752-3794 | A cleared message is a right unit of MergeFrom |
| CodecLaws.MergeHidesIff | client/src/protobuf/messages.pb.cc:3752-3794 | Merging c into a leaves nothing of a if and only if c covers a: every scalar default in c is default in a, a repeated a is empty, and the same holds in the same oneof member |
| CodecLaws.MergeAssociativeIff | client/src/protobuf/messages.pb.cc:3752-3794 | MergeFrom is associative on exactly the inputs in which no oneof goes to another member and back to a value that does not cover the first one, at any depth |
| CodecLaws.MergeNotAssociative | client/src/protobuf/messages.pb.cc:3752-3794 | Three concrete requests on which MergeFrom is not associative |
| CodecLaws.UnknownFieldsInvisible | client/src/protobuf/messages.pb.cc:3526-3535 | An input with unknown records inserted at any field boundaries and depths, enclosing lengths rewritten, is accepted exactly when the plain one is and gives the same message |
| CodecLaws.InsertionPads | client/src/protobuf/messages.pb.cc:828-837 | Inserting one record of an undeclared number, or of a declared number with another wire type, between two sequences of records is such a padding |
| CodecLaws.NestedPads | client/src/protobuf/messages.pb.cc:3526-3535 | So is replacing the body of a submessage by a padded one, its length written anew, between two sequences of records |
| CodecLaws.FieldReadsBack | client/src/protobuf/messages.pb.cc:3601-3662 | A tag, a length and that many bytes are read as one record of that number and body |
| Messages.ParseExpected | client/src/protobuf/messages.pb.cc:3431-3440 | Taking the one byte ExpectTag expects and jumping to the field does what reading a tag and dispatching would do |
| Messages.ParseDeclared | client/src/protobuf/messages.pb.cc:3418-3427 | A declared tag, in any encoding, leads to the body of its case |
| Messages.ParseUndeclared | client/src/protobuf/messages.pb.cc:3526-3535 | Any other tag is skipped with its payload, or fails the parse |
| Messages.ParseStops | client/src/protobuf/messages.pb.cc:3526-3543 | End of input is the only tag 0 or end group that is a success |
| Messages.WroteThen | client/src/protobuf/messages.pb.cc:3601-3662 | Two writes to the target one behind the other are one write of the concatenation, and nothing else changes |
| Messages.CodedInputStream.ReadTagWithCutoff | client/src/protobuf/messages.pb.cc:774-776 | Reads a tag of at most 32 bits; 0 at the limit or when it is unreadable; tells whether it is at most the cutoff |
| Messages.CodedInputStream.ExpectTag | client/src/protobuf/messages.pb.cc:790-790 | Takes the next byte exactly when it is the expected tag |
| Messages.CodedInputStream.ExpectAtEnd | client/src/protobuf/messages.pb.cc:824-824 | True exactly at the limit, and then counts as the legitimate end |
| Messages.CodedInputStream.SkipField | client/src/protobuf/messages.pb.cc:828-836 | Skips exactly the payload of the tag's wire type, or fails |
| Messages.Message.constructor | client/src/protobuf/messages.pb.cc:696-721 | A new object stands for the default value |
| Messages.Message.MutableMember | client/src/protobuf/messages.pb.h:2638-2646 | The member asked for is set: the one that was, or a new empty one in place of another |
| Messages.Message.AddElement | client/src/protobuf/messages.pb.cc:4912-4913 | Appends one empty element |
| Messages.Message.ReadMessage | client/src/protobuf/messages.pb.cc:3426-3427 | Parses a length-delimited body into the object, under its own limit, which is restored |
| Messages.Message.ReadMember | client/src/protobuf/messages.pb.cc:3424-3433 | A oneof case merges into the member that is set, or into a new one |
| Messages.Message.ReadElement | client/src/protobuf/messages.pb.cc:4908-4921 | A repeated case appends the parsed element |
| Messages.Message.ReadScalar | client/src/protobuf/messages.pb.cc:779-792 | A scalar case stores the value, and fails on invalid UTF-8 |
| Messages.Message.ReadField | client/src/protobuf/messages.pb.cc:777-826 | One case of the switch does what one record does to the message value |
| Messages.Message.TryShortcut | client/src/protobuf/messages.pb.cc:3431-3447 | The shortcut behind a case takes only a tag that the loop would read next, or the true end |
| Messages.Message.MergePartialFromCodedStream | client/src/protobuf/messages.pb.cc:3413-3545 | On every input, malformed ones included, the loop with ExpectTag, goto and ExpectAtEnd accepts what the plain read-and-dispatch parser accepts and builds the same message; every iteration consumes input |
| Messages.Message.Clear | client/src/protobuf/messages.pb.cc:3408-3411 | Back to the default value |
| Messages.Message.ParseFromArray | server/src/jobs/jobs.cpp:17-19 | Succeeds exactly when all bytes parse into a cleared message, and then holds that message |
| Messages.Message.ByteSize | client/src/protobuf/messages.pb.cc:3664-3733 | Returns the size of the message and leaves every reachable _cached_size_ equal to the bytes that object will emit |
| Messages.Message.SerializeWithCachedSizesToArray | client/src/protobuf/messages.pb.cc:3601-3662 | With those cached sizes, writes exactly the serialization at the target and nothing else |
| Messages.Message.SerializeToArray | server/src/server/session.cpp:166-169 | Fills the buffer with exactly the serialization when it has that size |
| Messages.Message.MergeFrom | client/src/protobuf/messages.pb.cc:3752-3794 | The object becomes the merge of the two values; the other object is unchanged |
| Messages.Message.MergeElements | client/src/protobuf/messages.pb.cc:5005-5011 | Appends copies of the other's elements, in order |
| Messages.Message.MergeScalars | client/src/protobuf/messages.pb.cc:973-990 | Takes over what is not default in the other |
| Protocol.PacketMsgReadsBack | client/src/message_processing/messagefactory.cpp:4-81 | The value read from the message a factory or job fills is the value put in, for all 8 requests and 6 kinds of response |
| Protocol.MsgRequest | server/src/jobs/jobs.cpp:21-53 | Every well-typed Request message is one of the requests the dispatch tells apart, with valid text |
| Protocol.MsgResponse | client/src/jobs/jobs.cpp:26-232 | Every well-typed Response message is one of the responses the callbacks tell apart, with valid text |
| Protocol.PacketRoundTrip | client/src/protobuf/messages.pb.cc:7461-7554 | A packet serialized by one side is the packet parsed by the other |
| Protocol.PacketNotEmpty | client/src/protobuf/messages.pb.cc:7556-7583 | A WrappedMessage with its oneof set takes at least two bytes |
| Protocol.SendWithoutMessage | server/src/jobs/jobs.cpp:217-221 | A SendMessageRequest without its message is one with chat 0 and no text |
| WireFormat.PacketOnTheWire | protocol/messages.proto:9-137 | Every packet written out byte by byte, with the tags of the schema: which string or id of which request or response stands under which number, and what is left out |
| WireFormat.RequestOnTheWire | client/src/message_processing/messagefactory.cpp:4-81 | The same for the body of a Request |
| WireFormat.ResponseOnTheWire | server/src/jobs/jobs.cpp:75-310 | The same for the body of a Response |
| WireFormat.PrefixOnTheWire | client/src/protobuf/messages.pb.cc:7896-7906 | The length prefix is the byte 9 and the length in eight bytes, the least significant first |
| WireFormat.StatusOnTheWire | protocol/messages.proto:72-78 | ACCEPTED and REJECTED as the bytes of their packets |
| Framing.PrefixSize | client/src/protobuf/messages.pb.cc:7896-7921 | The LengthPrefix takes its fixed nine bytes if and only if the length is not 0; otherwise none |
| Framing.PrefixReadsBack | server/src/server/session.cpp:75-80 | The length read from a prefix is the length written, for every 64-bit length |
| Framing.FrameParts | server/src/server/session.cpp:158-175 | The first nine bytes of a frame announce the rest, and the rest parses to the packet |
| Framing.FramesReadBack | client/src/network/network_session.cpp:26-37 | Any concatenation of frames is read as exactly the list of packets sent |
| Framing.UnframeSnoc | server/src/server/session.cpp:66-125 | A prefix and a body read after a stream of whole frames add exactly one packet |
| Framing.UnframeOfPrefix | server/src/server/session.cpp:66-125 | Whole frames read from a part of a sender's stream are its first packets |
| Relations.RegistrationConsistent | server/src/storage/postgresql_storage.cpp:97-118 | Registration keeps all invariants of the tables |
| Relations.SendMessageConsistent | server/src/storage/postgresql_storage.cpp:145-170 | send_message keeps them |
| Relations.AddContactConsistent | server/src/storage/postgresql_storage.cpp:172-196 | add_contact keeps them: contacts stay mutual, between different clients, and recorded once |
| Relations.AddContactKeepsMutual | server/src/storage/postgresql_storage.cpp:181-184 | The two rows keep contacts mutual and recorded once |
| Relations.CreateChatKeepsPairs | server/src/storage/postgresql_storage.cpp:209-223 | After create_chat every chat still has exactly the two rows of a pair, each titled with the other's name |
| Relations.CreateChatKeepsOnePerPair | server/src/storage/postgresql_storage.cpp:203-223 | create_chat never gives two clients a second common chat |
| Relations.CreateChatConsistent | server/src/storage/postgresql_storage.cpp:199-235 | create_chat keeps all invariants of the tables |
| Relations.SharedChat | server/src/storage/postgresql_storage.cpp:77-94 | Two different users in one chat are its only members, with each other's name in the title, and share no other chat |
| Relations.TitleSays | server/src/storage/postgresql_storage.cpp:213-216 | A title is "Chat with " and the name |
| Relations.ChatsCount | server/src/storage/postgresql_storage.cpp:67-69 | get_chats yields a row for each membership of the client, with its chat and title, and no other |
| Relations.ContactsCount | server/src/storage/postgresql_storage.cpp:54-61 | get_contacts yields each friend once, with the name and email of its Client row, and nobody else |
| Relations.MemberIffChat | server/src/storage/postgresql_storage.cpp:67-74 | A client may write to exactly the chats get_chats yields |
| Storage.CommonChatRowFindsChat | server/src/storage/postgresql_storage.cpp:77-86 | The join over both users' chats has a row if and only if they share a chat |
| Storage.AtMostOneRow | server/tests/gen_schema.sql:9-15 | UNIQUE (email) leaves at most one row for an email, and none if and only if it is not taken |
| Storage.PostgresStorage.Registration | server/src/storage/postgresql_storage.cpp:97-118 | The new tables and the returned bool are those of the transaction: a row, or false and nothing |
| Storage.PostgresStorage.Login | server/src/storage/postgresql_storage.cpp:120-143 | Succeeds if and only if the email's row has the hash of the password, with that row's id and name |
| Storage.PostgresStorage.SendMessage | server/src/storage/postgresql_storage.cpp:145-170 | Appends the message for a member of the chat; otherwise false and nothing |
| Storage.PostgresStorage.AddContact | server/src/storage/postgresql_storage.cpp:172-196 | Both rows or neither: false for an unknown email, oneself, or a contact already there |
| Storage.PostgresStorage.CreateChat | server/src/storage/postgresql_storage.cpp:199-235 | The chat and both rows or nothing; false when a common chat exists or a client is unknown |
| Storage.PostgresStorage.GetChats | server/src/storage/postgresql_storage.cpp:238-259 | The response holds, as a multiset, the user's chats, and nothing when the transaction fails |
| Storage.PostgresStorage.GetContacts | server/src/storage/postgresql_storage.cpp:261-281 | The same for the contacts |
| Storage.PostgresStorage.GetMessages | server/src/storage/postgresql_storage.cpp:283-303 | The same for the messages of the chat |
| ServerSpec.StepKeepsConsistent | server/src/jobs/jobs.cpp:75-310 | Every request keeps all invariants of the tables |
| ServerSpec.RunsAreGood | server/src/jobs/jobs.cpp:75-310 | From an empty database, after any run, the tables are consistent and every cached profile is the Client row it was read from |
| ServerSpec.ClientsAreRegistered | server/src/storage/postgresql_storage.cpp:97-118 | The Client table holds exactly the accounts of accepted registrations |
| ServerSpec.LoginRefinesHistory | server/src/storage/postgresql_storage.cpp:120-143 | A login succeeds if and only if an earlier accepted registration had the email and a password of the same hash |
| ServerSpec.CacheIsLastLogin | server/src/jobs/jobs.cpp:102-120 | A session's cached profile is the one its latest successful login was answered with, and equals the Client row |
| ServerSpec.ChatsAreUnique | server/src/storage/postgresql_storage.cpp:199-235 | After any run two different users share at most one chat; it has exactly their two rows and titles |
| ServerSpec.MessagesAreSent | server/src/storage/postgresql_storage.cpp:145-170 | The stored messages of a chat are the sender and text of the accepted sends to it, in commit order |
| ServerSpec.GetMessagesConserves | server/src/storage/postgresql_storage.cpp:283-303 | get_messages returns, as a multiset, exactly the accepted sends to the chat |
| ServerSpec.SendersWereMembers | server/src/storage/postgresql_storage.cpp:13-26 | Every stored message's sender is a member of its chat |
| ServerSpec.OnlyAcceptedChanges | server/src/storage/postgresql_storage.cpp:145-235 | A request that is not answered ACCEPTED changes no table |
| ServerSpec.AnswersAreEncodable | server/src/jobs/jobs.cpp:75-310 | The oneof case of a response is fixed by the request and by whether the session is logged in; its text is valid UTF-8 |
| ServerEffects.AccountsAreRegistered | server/src/storage/postgresql_storage.cpp:97-118 | The Client table holds for each id the name, email and password hash of the accepted registration that got it |
| ServerEffects.RegisterEffect | server/src/jobs/jobs.cpp:75-95 | A registration is accepted if and only if it commits and nobody has registered with the email; then the account is there and nothing else has changed |
| ServerEffects.LoginEffect | server/src/jobs/jobs.cpp:102-130 | A login is answered with a profile if and only if it commits and an account was registered with the email and a password of the same hash; the profile is that account's and is cached |
| ServerEffects.SendEffect | server/src/jobs/jobs.cpp:217-244 | A message is accepted if and only if it commits and its session's client is a member of the chat; then it is stored, from that client, in that chat |
| ServerEffects.AddContactEffect | server/src/jobs/jobs.cpp:251-277 | A contact is accepted if and only if it commits, the email is another account's and the two are not linked; then they are, both ways |
| ServerEffects.CreateChatEffect | server/src/jobs/jobs.cpp:283-310 | A chat is accepted if and only if it commits, the friend is a client and no chat is shared; then both are members of it, its rows are the two titled ones, and all other rows are unchanged |
| ServerEffects.LinksAreMade | server/src/storage/postgresql_storage.cpp:172-196 | Two clients are linked if and only if one of them has made an accepted AddContact for the other |
| ServerEffects.ChatsAreMade | server/src/storage/postgresql_storage.cpp:199-235 | The chats of a client are those of the accepted CreateChat requests that involve it, under the other's name |
| ServerEffects.MembersAreMade | server/src/storage/postgresql_storage.cpp:199-235 | A client is a member of exactly these chats |
| ServerEffects.GetChatsEffect | server/src/jobs/jobs.cpp:136-157 | The chats answered are, as a multiset, those that accepted requests have made for the session's client; an empty Response without a login |
| ServerEffects.GetContactsEffect | server/src/jobs/jobs.cpp:163-183 | The contacts answered are, each once, the accounts linked with it by accepted requests, with the name and email they registered |
| ServerEffects.GetMessagesEffect | server/src/jobs/jobs.cpp:190-210 | The messages answered are the accepted sends to the chat |
| ServerSession.ClientSession.Start | server/src/server/session.cpp:52-55 | A started session runs and has begun exactly a prefix read |
| ServerSession.ClientSession.Stop | server/src/server/session.cpp:57-64 | Marks the session stopped and begins nothing |
| ServerSession.ClientSession.DoAsyncReadPrefix | server/src/server/session.cpp:93-105 | Sizes the buffer for the prefix and begins its read, unless stopped |
| ServerSession.ClientSession.DoAsyncReadMessage | server/src/server/session.cpp:127-139 | Sizes the buffer for the announced length and begins the read, unless stopped |
| ServerSession.ClientSession.OnReadPrefix | server/src/server/session.cpp:66-91 | Begins the message read for the announced length; stops on an error, a short read or an unreadable prefix |
| ServerSession.ClientSession.OnReadMessage | server/src/server/session.cpp:107-125 | Posts the parse job for a complete message; stops otherwise |
| ServerSession.ClientSession.DoAsyncWrite | server/src/server/session.cpp:158-175 | Prefix and packet serialized in place make the buffer exactly one frame, and its write is begun, unless stopped |
| ServerSession.ClientSession.OnWrite | server/src/server/session.cpp:146-156 | Begins the next prefix read; stops on an error |
| ServerSession.ClientSession.SetState | server/src/server/session.cpp:181-183 | Replaces the cached profile and nothing else |
| ServerSession.ClientSession.ParseCommandJob | server/src/jobs/jobs.cpp:14-65 | Posts the job of the request in the buffer; stops on a parse error, a response, or a request without a member |
| ServerJobs.RegisterRequestJob | server/src/jobs/jobs.cpp:75-95 | The job is the sequential step on the tables, its response answers the request, and exactly that response is begun to be written |
| ServerJobs.LoginRequestJob | server/src/jobs/jobs.cpp:102-130 | The same; a successful login is cached before the response is written |
| ServerJobs.ChatsRequestJob | server/src/jobs/jobs.cpp:136-157 | The same; an empty Response without a login |
| ServerJobs.ContactsRequestJob | server/src/jobs/jobs.cpp:163-183 | The same |
| ServerJobs.MessagesRequestJob | server/src/jobs/jobs.cpp:190-210 | The same |
| ServerJobs.SendMesgRequestJob | server/src/jobs/jobs.cpp:217-244 | The same |
| ServerJobs.AddContactRequestJob | server/src/jobs/jobs.cpp:251-277 | The same |
| ServerJobs.CreateChatRequestJob | server/src/jobs/jobs.cpp:283-310 | The same |
| ServerJobs.AnswerIsSendable | server/src/jobs/jobs.cpp:75-310 | Every answer a job may give is a well-formed packet |
| ServerProtocol.PrefixDoneKeeps | server/src/server/session.cpp:66-91 | The end of a prefix read keeps the invariant of its session, with or without an error |
| ServerProtocol.MessageDoneKeeps | server/src/server/session.cpp:107-125 | So does the end of a message read: the buffer holds the body behind the announced prefix |
| ServerProtocol.ParseEndKeeps | server/src/jobs/jobs.cpp:14-65 | So does the parse job: the request dispatched is the next packet of the session's input |
| ServerProtocol.CommitIsStep | server/src/jobs/jobs.cpp:75-310 | A storage call is one legal step of the sequential server, although the session state was read earlier |
| ServerProtocol.WriteDoneKeeps | server/src/server/session.cpp:146-156 | A completed write has sent exactly the framed response, since the buffer has not changed meanwhile |
| ServerProtocol.StepKeepsInv | server/src/server/session.cpp:52-175 | Every step of every session keeps the invariant of the whole server |
| ServerProtocol.SingleOwner | server/src/server/session.cpp:57-175 | In every reachable state a running session has exactly one outstanding activity and a stopped one none; a read has the room it asked for; at most two workers run, each for a session whose activity is a running job |
| ServerProtocol.RefinesSequential | server/src/jobs/jobs.cpp:14-310 | In every reachable state the tables, the profile of each session and the bytes it has sent are those of the commits run one at a time in commit order; an idle session has been sent the answers to exactly the requests its input holds |
| ServerProtocol.KthAnswer | server/src/jobs/jobs.cpp:25-54 | The k-th response of a session answers its k-th dispatched request, with the kind fixed by the request and by whether a login came before; it is empty exactly when one was needed and missing |
| ServerProtocol.AnsweredInFiveSteps | server/src/server/session.cpp:107-175 | Five steps of its own after a decodable message has been read, whatever other sessions do, a session holds the framed answer; exactly one request was dispatched and committed, and nothing was written |
| ServerProtocol.WrittenInSixSteps | server/src/server/session.cpp:107-175 | The sixth step, if it is no write error, has added exactly that frame to what the session has written, and the session reads its next prefix |
| ServerProtocol.AcceptReads | server/src/server/session.cpp:52-55 | A new session waits for a prefix |
| ServerProtocol.RequestsDecode | server/src/jobs/jobs.cpp:14-54 | The bytes of every request with a member are dispatched as that request |
| ServerProtocol.PrefixArrives | server/src/server/session.cpp:75-80 | The prefix of a request that arrives without error leads to a read of the announced length |
| ServerProtocol.MessageArrives | server/src/server/session.cpp:117-119 | The body behind it leads to the parse job, with the request in the buffer |
| ServerProtocol.AnsweredInEightSteps | server/src/server/session.cpp:52-175 | A request whose frame arrives without error at a session waiting for one is answered by eight steps of the session, whatever others do: it is dispatched, committed once, and exactly its framed answer is written |
| ServerProtocol.StopsIff | server/src/server/session.cpp:66-156 | A session stops on a failed or short read, an unreadable prefix, bytes that are no request or a failed write, and for no other reason |
| ServerProtocol.PoolNeverStalls | server/src/server/server.h:31 | While any session has work for the pool, some worker can take a step |
| Reassembly.ReassemblyIff | client/src/network/network_session.cpp:109-157 | However a response frame is split, exactly its body is loaded, once, and the reader is idle again, if and only if at most one notification falls between the end of the prefix and the end of the body |
| Reassembly.ResponseIsLost | client/src/network/network_session.cpp:151-154 | Every response can be lost: prefix, one byte of the body and the rest as three notifications are not delivered |
| Reassembly.MoreThanAFrameWaits | client/src/network/network_session.cpp:139-150 | Bytes behind a frame delay its body to the next notification and stay in the socket |
| Reassembly.UnreadablePrefixAborts | client/src/network/network_session.cpp:129-134 | An unreadable prefix, or one that announces 2^64 - 1, aborts the socket |
| Reassembly.UnreadableBodyAborts | client/src/network/network_session.cpp:117-120 | So does a body that is no packet |
| Reassembly.BodyPhase | client/src/network/network_session.cpp:146-154 | Behind the prefix, the body is loaded if and only if the next notification completes it |
| Reassembly.OnlyShortLoads | client/src/network/network_session.cpp:151-154 | After the last else has dropped a consumed prefix, no body as long as the one sent is ever loaded |
| Reassembly.StaleReaderIff | client/src/network/network_session.cpp:46-61 | connect keeps m_bytesReaded: when the reader of the lost connection had taken a prefix, exactly when the first response of the new connection still comes through |
| Reassembly.StaleReaderLoses | client/src/network/network_session.cpp:46-61 | Such a reader does not deliver even a response that comes in one piece |
| Client.OperationInsideCallback | client/src/network/network_session.cpp:112-150 | A callback, and an operation called from its signal, have the same effect before and after m_bytesReaded is reset |
| Client.Session.Request | client/src/network/network_session.cpp:20-44 | Registers the callback and writes exactly one frame, or emits operationAborted when not connected |
| Client.Session.ReadPrefixBytes | client/src/network/network_session.cpp:68-80 | Takes nine bytes; the announced length as a signed number, or PARSE_ERROR |
| Client.Session.ReadMessage | client/src/network/network_session.cpp:82-95 | Takes the announced bytes and parses them |
| Client.Session.ProcessResponse | client/src/network/network_session.cpp:97-103 | Runs the registered callback on a response, and nothing on anything else |
| Client.Session.OnReadyRead | client/src/network/network_session.cpp:109-157 | The branches of the handler are the reader of module Reassembly; a loaded response runs its callback; an unreadable prefix or body aborts the socket |
| Client.Session.OnConnection | client/src/network/network_session.cpp:193-196 | Announces the connection and releases nothing |
| Client.BackEndFacade.OnSignal | client/src/backend_facade.cpp:14-77 | Every signal of the backend but showMessage makes the facade available, and every one reaches the view |
| Client.Backend.Perform | client/src/backend_facade.cpp:121-192 | An operation does nothing while another is under way; otherwise it takes the lock and makes the request of its job |
| Client.Backend.LoginCallback | client/src/jobs/jobs.cpp:26-48 | Stores the profile of a successful login and emits loggedIn with the outcome |
| Client.Backend.StatusCallback | client/src/jobs/jobs.cpp:62-67 | Emits the job's signal, true exactly for ACCEPTED |
| Client.Backend.LoadMessagesCallback | client/src/jobs/jobs.cpp:134-151 | Gives the message list one vector with the received messages in order, and emits loadedMessages |
| Client.Backend.LoadDataCallback | client/src/jobs/jobs.cpp:210-232 | Contacts lead to the second request with the same callback and no signal; anything else ends with loadedData |
| Client.Backend.SetChats | client/src/jobs/jobsutils.cpp:5-14 | The list is given exactly the received chats, in order |
| Client.Backend.SetContacts | client/src/jobs/jobsutils.cpp:16-29 | The list is given exactly the received contacts, in order |
| Lockstep.NotifyMidFrame | client/src/network/network_session.cpp:109-157 | While one response is on its way a notification loads its body exactly when the last byte has come, and otherwise keeps what came |
| Lockstep.CallbackEnds | client/src/jobs/jobs.cpp:26-254 | The callback of the request in flight ends its operation with the operation's own signal and the outcome in the response, or is LoadData's first and makes the second request |
| Lockstep.DispatchedWereAsked | server/src/jobs/jobs.cpp:14-65 | The requests a session has dispatched are the first ones its client sent |
| Lockstep.MoveKeepsInv | server/src/server/session.cpp:52-175 | Every step of server, client, network or user keeps the invariant of the whole system |
| Lockstep.AtMostOneInFlight | client/src/backend_facade.cpp:121-192 | In every reachable state at most one request is in flight per connection, the facade is available exactly when none is, and the k-th callback run is the one registered with the k-th request and was given the response the server committed for it |
| Lockstep.OneReleasePerOperation | client/src/jobs/jobs.cpp:196-232 | While the connection lasts an operation makes one request, loadData at most two, and the lock is taken from the call to the single signal that is the operation's own; the signal tells the outcome in the server's answer, and what the client then holds (profile, chats, contacts, a new message vector) is what the server sent |
| Lockstep.ConnectionStarts | client/src/network/network_session.cpp:193-196 | A new connection is announced, with nothing under way on it |
| Lockstep.ConnectionLasts | client/src/network/network_session.cpp:46-61 | Besides its loss only new settings with a valid address end a connection; no arriving bytes and no other operation do |
| EndToEnd.OperationOutcome | client/src/backend_facade.cpp:121-192 | In every reachable state, what a completed operation has achieved, stated for its own arguments: sign-in succeeds if and only if an account was registered with this email and a password of the same hash; sign-up, message, contact and chat are accepted if and only if they can be and then are in the tables; the loaded chats, contacts and messages are those of the accepted requests |
| EndToEnd.OneRequestOutcome | client/src/jobs/jobs.cpp:13-254 | The same for one request and its answer |
| EndToEnd.LoadDataOutcome | client/src/jobs/jobs.cpp:196-232 | The same for the two requests of loadData |
| Lockstep.LoadedMessagesFiledIff | client/src/jobs/jobs.cpp:134-151 | In every reachable state after an answered loadMessages(chat), the answer is filed under chat if and only if chat was the current one when the callback ran (or held the same vector before); in any case it is under the chat that was current then |
| Lockstep.SetOnceFiles | client/src/model/messageslist.cpp:51-52 | Of the calls during an operation the one that set a vector decides where it is filed |
| MessagesView.LastSetMeans | client/src/model/messageslist.cpp:40-54 | The vector of a chat is that of the last call that set one while the chat was current; there is none exactly without such a call |
| MessagesView.FiledUnderIff | client/src/model/messageslist.cpp:51-52 | A vector that is set is filed under the current chat and under no other |
| MessagesView.FiledUnderAnother | client/src/model/messageslist.cpp:51-52 | After any run: select a chat, select another, and the first one's messages are filed under the other, and not under the first |
| MessagesView.SelectingFilesNothing | client/src/model/messageslist.cpp:22-38 | Changing the current chat files nothing, however often |
| MessagesView.NeverEmptied | client/src/model/messageslist.cpp:40-56 | A run that sets no null vector never hides an entry |
| MessagesView.ShowsEntryIff | client/src/model/messageslist.cpp:22-56 | The list shows the map's own entry for the current chat, or nothing without one, exactly unless a null vector emptied it while the entry stayed |
| MessagesView.InStepMeans | client/src/model/messagesmodel.cpp:53-67 | Begin and end calls strictly alternate in pairs of one kind, and after every end a view that applies the announced ranges counts the rows there are |
| MessagesView.OneMorePair | client/src/model/messagesmodel.cpp:53-67 | A pair of announcements with the right range keeps the view in step |
| MessagesView.MessagesList.SetCurrentChatId | client/src/model/messageslist.cpp:22-38 | Keeps the invariant; on a change announces the removal of all rows, then the rows of the new chat's entry if it has one |
| MessagesView.MessagesList.SetItems | client/src/model/messageslist.cpp:40-56 | Keeps the invariant; files the vector under the current chat, shares it with the map, and announces removal and insertion |
| MessagesView.MessagesList.ClearItems | client/src/model/messageslist.cpp:24-27 | Announces the removal of exactly the rows there were |
| MessagesView.MessagesModel.SetList | client/src/model/messagesmodel.cpp:42-68 | Detaches the old list, attaches the new one, and resets the view to its row count |
| MessagesView.MessagesModel.OnPreItemsSetted | client/src/model/messagesmodel.cpp:53-55 | Begins the insertion of rows 0 to size - 1 |
| MessagesView.MessagesModel.OnPostListCleared | client/src/model/messagesmodel.cpp:63-65 | Ends the removal |

## Left out

- Messages.Message.MergePartialFromCodedStream: does not model the recursion limit or group wire types, which the runtime decides; a length beyond the enclosing message fails at once instead of being cut at the limit.
- Messages.Message.ReadScalar: does not model UTF-8 verification when serializing, which only logs.
- Client.Session.ReadMessage: lengths of 2^31 and more are truncated by the source to an int; the model takes only lengths that have arrived, and LoadMessage aborts on a negative one.
- Client.Session.ProcessResponse: a response before the first request would call an empty std::function; the model ignores it, and AtMostOneInFlight shows that it does not occur.
- Client.Backend.Perform: a view that calls an operation from within a signal handler is covered by OperationInsideCallback, not by a call inside the method.
- Storage.PostgresStorage.Login: text with NUL bytes and ids beyond the INTEGER columns are not modelled.
- ServerProtocol.Enabled: memory exhaustion by a huge declared length is not modelled, nor are responses of 2 GiB or more.
- ServerSession.ClientSession.Stop: does not model closing the socket; it only marks the session.
- Protobuf reflection, descriptors, arenas, Swap, CopyFrom, and the serializer to a stream: bookkeeping, or a twin of what is proved.
- Sockets, ASIO and Qt: kept as contracts of their operations (exact reads, one handler per operation, synchronous signals).
- READ COMMITTED anomalies and lost database connections beyond a transaction that does not commit.
- ChatsList and ContactsList with their models: the same argument as MessagesList, with less.
- The roles and data of MessagesModel: a fixed table and a lookup.
- Text conversion between QString and UTF-8, the port validator, QML, logging, option parsing and the main functions.
- Fairness: which enabled step comes next, and that a queued job is ever picked, is up to the pool.

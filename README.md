# IPaddr_cpp: a verified model

`IPaddr_cpp` (unirec/ipaddr_cpp.h in the Nemea framework) is a small C++ wrapper
around the UniRec address type `ip_addr_t`, which holds 16 bytes in network order
and can also be read as two 64-bit words `ui64[0]` and `ui64[1]`. The wrapper does two things:

- It orders addresses. `swap_bytes` reverses the bytes of a 64-bit word. The six
  comparison operators swap both words and compare the high word first, then the low
  word. `==` compares the raw words.
- It keeps a pointer `data` to an `ip_addr_t` and a flag `new_object`. The flag says
  whether the wrapper allocated that storage, and so deletes it, or only refers to
  storage owned elsewhere, such as a field of a UniRec record.

The model has four modules:

- `LexOrder`: the reference orders. These are lexicographic order on byte strings
  (`LexLess`) and the unsigned number a big-endian byte string denotes (`BigEndianValue`).
- `ByteOrder`: 64-bit words as `bv64`.
  - `SwapBytes` is the source's mask-and-shift expression, operator for operator.
  - `LoadLE` is what a little-endian host reads from eight bytes of memory (one `ui64` slot).
  - `LoadBE` is the big-endian reading. `WordLess` is `<` on `uint64_t`.
- `AddressOrder`: an `ip_addr_t` value as `Bytes16`: 16 bytes, with `High`/`Low` the
  `ui64[0]`/`ui64[1]` views. It holds the six operators as they are written. `a < b` on two
  objects is `Less(a.Value(), b.Value())`.
- `AddressObject`: the class `IpAddrCpp`, which has:
  - the fields `newObject` and `data` (`array?<bv8>`, a 16-byte buffer or null);
  - ghost bookkeeping: `Allocated`, the storage the object obtained with `new`, and
    `Released`, the storage it passed to `delete`;
  - the constructors, the destructor (`Destroy`), `FromString`, `SetIP` and `ToString`.

The text parser `ip_from_str` and formatter `ip_to_str` are not part of this model.
They live in ipaddr.h. `FromString` and `ToString` take them as function parameters
(`parse`, `format`).

Where the code and its evident intent differ, the model follows the code:
- `new ip_addr_t` leaves the new address uninitialised rather than zeroed, so the model
  says nothing about the contents of freshly allocated storage.
- `toString` passes `data` to `ip_to_str` without a null check. The formatter is modelled
  on the 16 stored bytes, so the model has no null case: `ToString` requires `data != null`.
- `set_IP` keeps `new_object` as it was, where the object should become a borrower of
  the new storage; see Findings.

## Model

| member | source | states |
|---|---|---|
| ByteOrder.SwapBytes | unirec/ipaddr_cpp.h:49-60 | `swap_bytes` as written: the eight masks and shifts of the source, or-ed together; what it means is stated by the two lemmas below |
| ByteOrder.SwapBytesReversesBytes | unirec/ipaddr_cpp.h:49-60 | byte k of `swap_bytes(x)` is byte 7 - k of `x`, for every k |
| ByteOrder.SwapBytesInvolution | unirec/ipaddr_cpp.h:49-60 | swapping twice gives the word back, and two words swap to the same word exactly when they are equal |
| ByteOrder.LoadLEInjective | unirec/ipaddr_cpp.h:83-85 | the `ui64` read of eight bytes is equal for two byte strings exactly when the bytes are equal |
| ByteOrder.SwapLoadLE | unirec/ipaddr_cpp.h:63-67 | swapping the host-order word read from eight bytes gives the big-endian word of those bytes |
| ByteOrder.LoadBEOrder | unirec/ipaddr_cpp.h:63-67 | unsigned `uint64_t` order of big-endian words is lexicographic order of the bytes they come from |
| AddressOrder.High | unirec/ipaddr_cpp.h:64-66 | the `ui64[0]` read as written: bytes 0-7 of the address as a little-endian host loads them |
| AddressOrder.Low | unirec/ipaddr_cpp.h:64-66 | the `ui64[1]` read as written: bytes 8-15 of the address as a little-endian host loads them |
| AddressOrder.Less | unirec/ipaddr_cpp.h:63-67 | `operator<` as written: swapped high words compared, swapped low words breaking a tie |
| AddressOrder.LessEq | unirec/ipaddr_cpp.h:69-71 | `operator<=` as written: `!(a > b)` |
| AddressOrder.Greater | unirec/ipaddr_cpp.h:73-77 | `operator>` as written: swapped high words compared, swapped low words breaking a tie |
| AddressOrder.GreaterEq | unirec/ipaddr_cpp.h:79-81 | `operator>=` as written: `!(a < b)` |
| AddressOrder.Equal | unirec/ipaddr_cpp.h:83-85 | `operator==` as written: both raw words equal, with no swap |
| AddressOrder.NotEqual | unirec/ipaddr_cpp.h:86-88 | `operator!=` as written: `!(a == b)` |
| AddressOrder.LessIsLex | unirec/ipaddr_cpp.h:63-67 | `operator<` holds exactly when the 16 stored bytes come first lexicographically |
| AddressOrder.LessIsValueOrder | unirec/ipaddr_cpp.h:63-85 | `operator<` is the order of the addresses as big-endian unsigned 128-bit numbers, and `operator==` is equality of those numbers |
| AddressOrder.GreaterIsConverse | unirec/ipaddr_cpp.h:73-77 | `a > b` holds exactly when `b < a` |
| AddressOrder.EqualIsSameBytes | unirec/ipaddr_cpp.h:83-85 | `operator==` on the raw words holds exactly when all 16 bytes are equal |
| AddressOrder.NotEqualIsDifferentBytes | unirec/ipaddr_cpp.h:86-88 | `operator!=` holds exactly when some byte differs |
| AddressOrder.Trichotomy | unirec/ipaddr_cpp.h:63-85 | exactly one of `a < b`, `a == b`, `a > b` holds |
| AddressOrder.LessIsStrictTotalOrder | unirec/ipaddr_cpp.h:63-67 | `operator<` is irreflexive and transitive, and any two distinct addresses are related one way or the other |
| AddressOrder.LessEqIsLessOrEqual | unirec/ipaddr_cpp.h:69-71 | `a <= b`, written as `!(a > b)`, is `a < b` or `a == b` |
| AddressOrder.GreaterEqIsGreaterOrEqual | unirec/ipaddr_cpp.h:79-81 | `a >= b`, written as `!(a < b)`, is `a > b` or `a == b` |
| AddressOrder.LessEqIsTotalOrder | unirec/ipaddr_cpp.h:69-77 | `operator<=` is reflexive, antisymmetric, transitive and total |
| AddressObject.IpAddrCpp.constructor | unirec/ipaddr_cpp.h:29-33 | the default constructor owns fresh non-null storage, which is the only storage it has allocated |
| AddressObject.IpAddrCpp.WithFlag | unirec/ipaddr_cpp.h:36-40 | `IPaddr_cpp(is_new)` owns fresh storage when `is_new`, and otherwise holds null and owns nothing |
| AddressObject.IpAddrCpp.FromPointer | unirec/ipaddr_cpp.h:16 | the pointer constructor refers to `ptr` with `new_object` false and owns nothing |
| AddressObject.IpAddrCpp.Destroy | unirec/ipaddr_cpp.h:43-46 | the destructor deletes `data` exactly when `new_object` is set, and touches nothing else |
| AddressObject.IpAddrCpp.FromString | unirec/ipaddr_cpp.h:104-118 | succeeds exactly when the parser accepts the text. It always allocates one fresh buffer first. On failure `data`, `new_object` and the deletions are unchanged, and the fresh buffer is neither installed nor deleted (the leak). On success `data` is that buffer holding the parsed bytes, `new_object` is true, previously owned storage is deleted and borrowed storage is not. The ownership discipline is preserved |
| AddressObject.IpAddrCpp.SetIP | unirec/ipaddr_cpp.h:120-124 | `set_IP` as written: `data` becomes `ip`, and `new_object` and the storage records keep their values |
| AddressObject.IpAddrCpp.SetIPReleasing | unirec/ipaddr_cpp.h:120-124 | corrected `set_IP`: owned storage is deleted, the object becomes a borrower of `ip`, and the ownership discipline is preserved |
| AddressObject.IpAddrCpp.ToString | unirec/ipaddr_cpp.h:91-96 | `toString` as written: the formatter applied to the 16 stored bytes, with `data` not null |
| AddressObject.EqualObjectsPrintAlike | unirec/ipaddr_cpp.h:91-96 | `toString` depends only on the stored address: objects equal under `operator==` print the same |
| AddressObject.FromStringThenToString | unirec/ipaddr_cpp.h:104-118 | on any object, owner or borrower: `fromString` succeeds exactly when the parser accepts the text, after which `toString` prints the formatter's text for the parsed address; after a failure the object keeps its pointer, flag and stored address and prints as before |
| AddressObject.SetIPThenDestroy | unirec/ipaddr_cpp.h:120-124 | an owning object given `set_IP(ip)` and then destroyed deletes `ip`, which it never allocated, and never deletes its own storage |
| AddressObject.SetIPReleasingThenDestroy | unirec/ipaddr_cpp.h:120-124 | the same sequence with the corrected `set_IP` deletes the object's own storage, leaves `ip` alone, and keeps the ownership discipline |

## Left out

- pycommon/report2idea.py: command-line, TRAP, file, database and JSON output plumbing, which is I/O.
- `operator<<` (unirec/ipaddr_cpp.h:98-101): stream output.
- `ip_from_str` and `ip_to_str`: ipaddr.h is not part of this model. They are the parameters `parse` and `format`, with no address grammar.
- IPv4/IPv6 family tests, integer, byte and bit accessors: they are not in unirec/ipaddr_cpp.h.
- Comparisons of objects whose `data` is null: the operators dereference `data` unguarded. They are modelled on the 16 stored bytes only.
- Host byte order: `ui64[0]` and `ui64[1]` are read as on a little-endian host, as the unconditional `swap_bytes` presumes. A big-endian host is not modelled.
- ToString: has no null case. `toString` passes `data` to `ip_to_str` without a null check, and the formatter is modelled on the 16 stored bytes.
- Allocation failure: `new ip_addr_t` (unirec/ipaddr_cpp.h:31, 39, 106) can throw `std::bad_alloc`, while `new` in the model always succeeds. In `fromString` the throw would come before any field changes.
- FromString: the leak on a failed parse is stated in its contract (allocated, not installed, not deleted). The model has no wider notion of leaked memory.
- Deallocation itself: `delete` is recorded in the ghost set `Released`, per object. Use of storage after another object deleted it is not tracked.
- The implicitly generated copy constructor and copy assignment, which copy the pointer and the flag: they are not written in the source and are not modelled.
- Memory contents after `new ip_addr_t`: indeterminate, so no contract mentions them.

## Findings

| source | as written | input that shows it | evidently intended | confidence | as-written member | corrected member |
|---|---|---|---|---|---|---|
| unirec/ipaddr_cpp.h:120-124 | `set_IP` assigns `data = ip` and leaves `new_object` unchanged | an object made by `IPaddr_cpp()` (so `new_object` is true), then `set_IP(p)` for storage `p` owned elsewhere, then the destructor. The object's own buffer is never deleted, and the destructor deletes `p` | release owned storage, then refer to `ip` without owning it (`new_object = false`), as `fromString` and the destructor assume | not executed; high that the sequence misbehaves, medium that callers ever use `set_IP` on owning objects | AddressObject.IpAddrCpp.SetIP, AddressObject.SetIPThenDestroy | AddressObject.IpAddrCpp.SetIPReleasing, AddressObject.SetIPReleasingThenDestroy |

/** The IPaddr_cpp wrapper object: a pointer `data` to a 16-byte ip_addr_t and
    the flag `new_object` saying whether the object allocated that storage
    itself (and so deletes it) or merely refers to storage owned elsewhere. */
module AddressObject {
  import opened AddressOrder

  datatype Option<T> = None | Some(value: T)

  class IpAddrCpp {
    /** `new_object`: true when the destructor is to delete `data`. */
    var newObject: bool
    /** `data`: the ip_addr_t the object points at, or null. */
    var data: array?<bv8>
    /** Storage this object obtained with `new`, whether or not it was ever installed in `data`. */
    ghost var Allocated: set<array<bv8>>
    /** Storage this object has passed to `delete`. */
    ghost var Released: set<array<bv8>>

    /** `data`, when present, is a 16-byte ip_addr_t. */
    predicate WellFormed()
      reads this
    {
      data != null ==> data.Length == 16
    }

    /** The ownership discipline of the class: an object deletes only storage it
        allocated, and while it claims to own `data`, `data` is its own live storage. */
    ghost predicate OwnsOnlyItsOwn()
      reads this
    {
      Released <= Allocated &&
      (newObject && data != null ==> data in Allocated && data !in Released)
    }

    /** The 16 bytes `data` points at. */
    function Value(): Bytes16
      reads this, data
      requires data != null && WellFormed()
    {
      data[..]
    }

    /** `IPaddr_cpp()`: owns freshly allocated storage whose contents are indeterminate. */
    constructor ()
      ensures newObject && data != null && fresh(data) && WellFormed()
      ensures Allocated == {data} && Released == {}
      ensures OwnsOnlyItsOwn()
    {
      var storage := new bv8[16];
      data := storage;
      newObject := true;
      Allocated := {storage};
      Released := {};
    }

    /** `IPaddr_cpp(is_new)`: owns fresh storage when `is_new`, otherwise holds null. */
    constructor WithFlag(isNew: bool)
      ensures newObject == isNew && WellFormed()
      ensures isNew ==> data != null && fresh(data) && Allocated == {data}
      ensures !isNew ==> data == null && Allocated == {}
      ensures Released == {}
      ensures OwnsOnlyItsOwn()
    {
      newObject := isNew;
      if isNew {
        var storage := new bv8[16];
        data := storage;
        Allocated := {storage};
      } else {
        data := null;
        Allocated := {};
      }
      Released := {};
    }

    /** `IPaddr_cpp(const ip_addr_t *ptr)`: refers to `ptr` without owning it. */
    constructor FromPointer(ptr: array?<bv8>)
      requires ptr == null || ptr.Length == 16
      ensures data == ptr && !newObject && WellFormed()
      ensures Allocated == {} && Released == {}
      ensures OwnsOnlyItsOwn()
    {
      data := ptr;
      newObject := false;
      Allocated := {};
      Released := {};
    }

    /** `~IPaddr_cpp()`: deletes `data` exactly when the object owns it
        (deleting a null pointer does nothing). */
    method Destroy()
      modifies this
      ensures data == old(data) && newObject == old(newObject) && Allocated == old(Allocated)
      ensures Released == old(Released) + (if old(newObject) && old(data) != null then {old(data)} else {})
      ensures old(OwnsOnlyItsOwn()) ==> Released <= Allocated
    {
      if newObject && data != null {
        Released := Released + {data};
      }
    }

    /** `fromString(str)`: allocates storage, asks the parser to fill it, and on
        success deletes any storage the object owned and takes ownership of the
        new one. On failure the object keeps its pointer, flag and value, and the
        storage allocated for the attempt is neither installed nor deleted. */
    method FromString(str: string, parse: string -> Option<Bytes16>) returns (ok: bool, ghost storage: array<bv8>)
      requires WellFormed()
      modifies this
      ensures WellFormed()
      ensures ok <==> parse(str).Some?
      ensures fresh(storage) && Allocated == old(Allocated) + {storage}
      ensures !ok ==> data == old(data) && newObject == old(newObject) && Released == old(Released)
      ensures !ok ==> storage != data && storage !in Released
      ensures ok ==> data == storage && newObject && Value() == parse(str).value
      ensures ok ==> Released == old(Released) + (if old(newObject) && old(data) != null then {old(data)} else {})
      ensures old(OwnsOnlyItsOwn()) ==> OwnsOnlyItsOwn()
    {
      var addrPtr := new bv8[16];
      storage := addrPtr;
      Allocated := Allocated + {addrPtr};
      var parsed := parse(str);
      if parsed.None? {
        return false, storage;
      }
      forall i | 0 <= i < 16 {
        addrPtr[i] := parsed.value[i];
      }
      if newObject {
        if data != null {
          Released := Released + {data};
        }
      } else {
        newObject := true;
      }
      data := addrPtr;
      assert data[..] == parsed.value;
      return true, storage;
    }

    /** `set_IP(ip)` as written: points `data` at `ip` and leaves `new_object` as it was. */
    method SetIP(ip: array?<bv8>)
      requires ip == null || ip.Length == 16
      modifies this
      ensures data == ip && newObject == old(newObject)
      ensures Allocated == old(Allocated) && Released == old(Released)
      ensures WellFormed()
    {
      data := ip;
    }

    /** `set_IP` with the storage discipline the class is built around: storage the
        object owns is deleted first, and the object then only refers to `ip`. */
    method SetIPReleasing(ip: array?<bv8>)
      requires ip == null || ip.Length == 16
      modifies this
      ensures data == ip && !newObject
      ensures Allocated == old(Allocated)
      ensures Released == old(Released) + (if old(newObject) && old(data) != null then {old(data)} else {})
      ensures WellFormed()
      ensures old(OwnsOnlyItsOwn()) ==> OwnsOnlyItsOwn()
    {
      if newObject && data != null {
        Released := Released + {data};
      }
      newObject := false;
      data := ip;
    }

    /** `toString()`: the external formatter applied to the stored 16 bytes. */
    function ToString(format: Bytes16 -> string): string
      reads this, data
      requires data != null && WellFormed()
    {
      format(Value())
    }
  }

  /** What the text of an object depends on: objects that compare equal with
      operator== print the same, whatever the formatter. */
  lemma EqualObjectsPrintAlike(a: IpAddrCpp, b: IpAddrCpp, format: Bytes16 -> string)
    requires a.data != null && a.WellFormed() && b.data != null && b.WellFormed()
    requires Equal(a.Value(), b.Value())
    ensures a.ToString(format) == b.ToString(format)
  {
    EqualIsSameBytes(a.Value(), b.Value());
  }

  /** fromString followed by toString on any object, owner or borrower: after a
      successful parse the object prints the parsed address; after a failed one it
      keeps its pointer, flag and stored address. */
  method FromStringThenToString(o: IpAddrCpp, str: string, parse: string -> Option<Bytes16>, format: Bytes16 -> string)
    returns (ok: bool, text: string)
    requires o.WellFormed()
    modifies o
    ensures ok <==> parse(str).Some?
    ensures ok ==> text == format(parse(str).value)
    ensures !ok ==> o.data == old(o.data) && o.newObject == old(o.newObject)
    ensures !ok && o.data != null ==> o.Value() == old(o.Value()) && text == format(old(o.Value()))
  {
    ghost var storage;
    ok, storage := o.FromString(str, parse);
    text := if o.data != null then o.ToString(format) else "";
  }

  /** set_IP as written on an object that owns its storage: the owned storage is
      never deleted, and the destructor then deletes `ip`, which the object did
      not allocate. */
  method SetIPThenDestroy() returns (o: IpAddrCpp, ip: array<bv8>, lost: array<bv8>)
    ensures ip in o.Released && ip !in o.Allocated
    ensures lost in o.Allocated && lost !in o.Released
    ensures !o.OwnsOnlyItsOwn()
  {
    o := new IpAddrCpp();
    lost := o.data;
    ip := new bv8[16];
    o.SetIP(ip);
    o.Destroy();
  }

  /** The same sequence with the corrected set_IP: the owned storage is deleted,
      `ip` is not, and the ownership discipline holds throughout. */
  method SetIPReleasingThenDestroy() returns (o: IpAddrCpp, ip: array<bv8>, own: array<bv8>)
    ensures ip !in o.Released
    ensures own in o.Released
    ensures o.OwnsOnlyItsOwn()
  {
    o := new IpAddrCpp();
    own := o.data;
    ip := new bv8[16];
    o.SetIPReleasing(ip);
    o.Destroy();
  }
}

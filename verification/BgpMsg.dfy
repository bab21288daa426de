/** The message object of src/bgp.c: its buffer, its cursor and the sessions
    that write or read the three fields of an UPDATE. Pointers into the buffer
    are offsets. */
module BgpMsg {
  import opened Netaddr
  import opened BgpWire
  import opened BgpWriter
  import opened BgpAttribs
  import opened Wrappers

  datatype Error = BGP_ENOERR | BGP_EINVOP | BGP_EBADWDRWN | BGP_EBADATTR | BGP_EBADNLRI

  datatype Flags = Flags(rd: bool, wr: bool, withdrn: bool, pattr: bool, nlri: bool, addpath: bool)

  /** CHECKFLAGSR: the first error stays. */
  function CheckFlags(err: Error, ok: bool): Error {
    if err == BGP_ENOERR && !ok then BGP_EINVOP else err
  }

  /** The session flag that is up; at most one is. */
  predicate InSession(flags: Flags, session: Session) {
    && flags.withdrn == (session == InWithdrawn)
    && flags.pattr == (session == InAttribs)
    && flags.nlri == (session == InNlri)
  }

  predicate OneSession(flags: Flags) {
    !(flags.withdrn && flags.pattr) && !(flags.withdrn && flags.nlri) && !(flags.pattr && flags.nlri)
  }

  function NoSession(flags: Flags): Flags {
    flags.(withdrn := false, pattr := false, nlri := false)
  }

  /** What a message open for reading must be: framed, and with no attribute of
      the reserved code 255, which attr_code_index has no slot for. */
  ghost predicate Readable(b: Bytes, pktlen: nat) {
    && |b| == BGPBUFSIZ
    && b[TYPE_OFFSET] == BGP_UPDATE
    && Framed(b, pktlen)
    && var lo, hi := AttrsLo(b, pktlen), AttrsHi(b, pktlen);
       forall p :: lo <= p < hi && Starts(b, lo, hi, p) && AttrFits(b, p, hi) ==> b[p + 1] < 255
  }

  /** The cursor is inside the field that is being read. */
  ghost predicate CursorOk(b: Bytes, pktlen: nat, flags: Flags, ustart: nat, uptr: nat, uend: nat)
    requires Readable(b, pktlen)
  {
    var lo, hi := AttrsLo(b, pktlen), AttrsHi(b, pktlen);
    && OneSession(flags)
    && (flags.withdrn ==> ustart == 21 <= uptr <= uend == lo - 2)
    && (flags.pattr ==> ustart == lo <= uptr <= uend == hi && Starts(b, lo, hi, uptr))
    && (flags.nlri ==> ustart == hi <= uptr <= uend == pktlen)
  }

  class BgpMsg {
    const buf: array<Byte>
    var flags: Flags
    var pktlen: nat
    var err: Error
    var ustart: nat
    var uptr: nat
    var uend: nat
    var presbuf: Bytes
    var offtab: seq<nat>
    var pfxbuf: NetaddrAp
    ghost var writer: Writer

    ghost function Memory(): Mem
      reads this, buf
    {
      Mem(buf[..], pktlen, ustart, uptr, presbuf)
    }

    ghost predicate Writing()
      reads this, buf
    {
      && InSession(flags, writer.session)
      && writer.failed == (err != BGP_ENOERR)
      && Holds(flags.addpath, writer.session, writer.update, Memory())
    }

    ghost predicate Reading()
      reads this, buf
    {
      && Readable(buf[..], pktlen)
      && TableOk(buf[..], AttrsLo(buf[..], pktlen), AttrsHi(buf[..], pktlen), offtab)
      && (err == BGP_ENOERR ==> CursorOk(buf[..], pktlen, flags, ustart, uptr, uend))
    }

    /** No attribute is cut short. */
    ghost predicate WholeList()
      requires Reading()
      reads this, buf
    {
      WholeFrom(buf[..], AttrsLo(buf[..], pktlen), AttrsHi(buf[..], pktlen))
    }

    ghost predicate Valid()
      reads this, buf
    {
      && buf.Length == BGPBUFSIZ
      && flags.wr == !flags.rd
      && |offtab| == OFFTAB_SIZE
      && if flags.wr then Writing() else Reading()
    }

    /** setbgpwrite_r for an UPDATE. */
    constructor (addpath: bool)
      ensures Valid() && fresh(buf)
      ensures flags.wr && flags.addpath == addpath && err == BGP_ENOERR && writer == EMPTY
    {
      buf := new Byte[BGPBUFSIZ](i => 0);
      flags := Flags(false, true, false, false, false, addpath);
      pktlen := MIN_UPDATE_LENGTH;
      err := BGP_ENOERR;
      ustart, uptr, uend := 0, 0, 0;
      presbuf := [];
      offtab := Zeros(OFFTAB_SIZE);
      pfxbuf := NetaddrAp(Netaddr(AF_UNSPEC, 0, Zeros(16)), 0);
      writer := EMPTY;
      new;
      Memcpy(buf, 0, MARKER);
      Memcpy(buf, 16, Zeros(7));
      Memcpy(buf, TYPE_OFFSET, [BGP_UPDATE]);
      EmptyHolds(addpath, buf[..]);
    }

    /** A message that was written elsewhere, with its offset table. */
    constructor Opened(octets: array<Byte>, n: nat, addpath: bool, table: seq<nat>)
      requires octets.Length == BGPBUFSIZ && Readable(octets[..], n)
      requires TableOk(octets[..], AttrsLo(octets[..], n), AttrsHi(octets[..], n), table)
      ensures Valid() && buf == octets && pktlen == n && offtab == table
      ensures flags == Flags(true, false, false, false, false, addpath) && err == BGP_ENOERR
    {
      buf, pktlen, offtab := octets, n, table;
      flags := Flags(true, false, false, false, false, addpath);
      err := BGP_ENOERR;
      ustart, uptr, uend := 0, 0, 0;
      presbuf := [];
      pfxbuf := NetaddrAp(Netaddr(AF_UNSPEC, 0, Zeros(16)), 0);
      writer := EMPTY;
    }

    // ---- Ending a session ------------------------------------------------

    /** bgprestore, then the length of the field goes before it. */
    method CloseField()
      requires 2 <= ustart <= uptr && uptr + |presbuf| == pktlen <= buf.Length
      requires uptr - ustart < 0x1_0000
      modifies buf
      ensures buf[..] == Closed(old(Memory()))
    {
      Memcpy(buf, uptr, presbuf);
      Memcpy(buf, ustart - 2, U16(uptr - ustart));
    }

    method CloseWithdrawn()
      requires Valid() && flags.wr && flags.withdrn && err == BGP_ENOERR
      modifies this`flags, this`writer, buf
      ensures Valid() && flags == NoSession(old(flags)) && writer == old(writer).(session := Idle)
    {
      hide Holds, Closed, Readable;
      ClosedWithdrawn(flags.addpath, writer.update, Memory());
      CloseField();
      flags := flags.(withdrn := false);
      writer := writer.(session := Idle);
    }

    method EndWithdrawn() returns (e: Error)
      requires Valid()
      modifies this, buf
      ensures Valid() && flags.rd == old(flags.rd) && flags.addpath == old(flags.addpath)
      ensures e == err == CheckFlags(old(err), old(flags.withdrn))
      ensures flags == if err == BGP_ENOERR then NoSession(old(flags)) else old(flags)
      ensures flags.wr ==> writer == Apply(old(writer), Op.EndWithdrawn)
      ensures flags.rd ==> buf[..] == old(buf[..])
      ensures pktlen == old(pktlen) && offtab == old(offtab) && pfxbuf == old(pfxbuf)
    {
      hide Holds, TableOk, Starts, AttrFits;
      err := CheckFlags(err, flags.withdrn);
      if err != BGP_ENOERR {
        writer := writer.(failed := true);
        return err;
      }
      if flags.wr {
        CloseWithdrawn();
      } else {
        flags := flags.(withdrn := false);
      }
      return BGP_ENOERR;
    }

    method CloseAttribs()
      requires Valid() && flags.wr && flags.pattr && err == BGP_ENOERR
      modifies this`flags, this`writer, buf
      ensures Valid() && flags == NoSession(old(flags)) && writer == old(writer).(session := Idle)
    {
      hide Holds, Closed, Readable;
      ClosedAttribs(flags.addpath, writer.update, Memory());
      CloseField();
      flags := flags.(pattr := false);
      writer := writer.(session := Idle);
    }

    method EndAttribs() returns (e: Error)
      requires Valid()
      modifies this, buf
      ensures Valid() && flags.rd == old(flags.rd) && flags.addpath == old(flags.addpath)
      ensures e == err == CheckFlags(old(err), old(flags.pattr))
      ensures flags == if err == BGP_ENOERR then NoSession(old(flags)) else old(flags)
      ensures flags.wr ==> writer == Apply(old(writer), Op.EndAttribs)
      ensures flags.rd ==> buf[..] == old(buf[..])
      ensures pktlen == old(pktlen) && offtab == old(offtab) && pfxbuf == old(pfxbuf)
    {
      hide Holds, TableOk, Starts, AttrFits;
      err := CheckFlags(err, flags.pattr);
      if err != BGP_ENOERR {
        writer := writer.(failed := true);
        return err;
      }
      if flags.wr {
        CloseAttribs();
      } else {
        flags := flags.(pattr := false);
      }
      return BGP_ENOERR;
    }

    method EndNlri() returns (e: Error)
      requires Valid()
      modifies this
      ensures Valid() && flags.rd == old(flags.rd) && flags.addpath == old(flags.addpath)
      ensures e == err == CheckFlags(old(err), old(flags.nlri))
      ensures flags == if err == BGP_ENOERR then NoSession(old(flags)) else old(flags)
      ensures flags.wr ==> writer == Apply(old(writer), Op.EndNlri)
      ensures pktlen == old(pktlen) && offtab == old(offtab) && pfxbuf == old(pfxbuf)
    {
      hide Holds, TableOk, Starts, AttrFits;
      if flags.wr && flags.nlri {
        ClosedNlri(flags.addpath, writer.update, Memory());
      }
      err := CheckFlags(err, flags.nlri);
      writer := Ended(writer, InNlri);
      if err != BGP_ENOERR {
        return err;
      }
      flags := flags.(nlri := false);
      return BGP_ENOERR;
    }

    /** endpending: whichever session is up ends. */
    method EndPending() returns (e: Error)
      requires Valid() && err == BGP_ENOERR
      modifies this, buf
      ensures Valid() && e == err == BGP_ENOERR
      ensures flags == NoSession(old(flags))
      ensures flags.wr ==> writer == old(writer).(session := Idle)
      ensures flags.rd ==> buf[..] == old(buf[..])
      ensures pktlen == old(pktlen) && offtab == old(offtab) && pfxbuf == old(pfxbuf)
    {
      hide Holds, TableOk, Readable;
      if !flags.withdrn && !flags.pattr && !flags.nlri {
        return err;
      }
      if flags.withdrn {
        e := EndWithdrawn();
      } else if flags.pattr {
        e := EndAttribs();
      } else {
        e := EndNlri();
      }
    }

    // ---- Starting a session ----------------------------------------------

    method GetWithdrawn() returns (ptr: nat, n: nat)
      requires buf.Length == BGPBUFSIZ
      ensures ptr == 21 && n == BE16(buf[..], 19)
    {
      ptr := BASE_PACKET_LENGTH;
      n := BE16(buf[..], ptr);
      ptr := ptr + 2;
    }

    method GetAttribs() returns (ptr: nat, n: nat)
      requires buf.Length == BGPBUFSIZ && Framed(buf[..], pktlen)
      ensures ptr == AttrsLo(buf[..], pktlen) && ptr + n == AttrsHi(buf[..], pktlen)
    {
      var size;
      ptr, size := GetWithdrawn();
      ptr := ptr + size;
      n := BE16(buf[..], ptr);
      ptr := ptr + 2;
    }

    method GetNlri() returns (ptr: nat, n: nat)
      requires buf.Length == BGPBUFSIZ && Framed(buf[..], pktlen)
      ensures ptr == AttrsHi(buf[..], pktlen) && n == pktlen - ptr
    {
      var size;
      ptr, size := GetAttribs();
      ptr := ptr + size;
      n := pktlen - ptr;
    }

    /** bgppreserve: what follows the field is kept aside. */
    method CutOut(ptr: nat, n: nat)
      requires ptr + n <= pktlen <= buf.Length
      modifies this`presbuf, this`pktlen, this`uptr, this`ustart, this`uend
      ensures Memory() == Mem(buf[..], old(pktlen) - n, ptr, ptr, buf[..][ptr + n..old(pktlen)])
    {
      presbuf := buf[ptr + n..pktlen];
      pktlen := pktlen - n;
      uptr, ustart, uend := ptr, ptr, ptr + n;
    }

    method CutOff(ptr: nat, n: nat)
      requires n <= pktlen
      modifies this`pktlen, this`uptr, this`ustart, this`uend
      ensures Memory() == Mem(buf[..], old(pktlen) - n, ptr, ptr, presbuf)
    {
      pktlen := pktlen - n;
      uptr, ustart, uend := ptr, ptr, ptr + n;
    }

    method OpenWithdrawn()
      requires Valid() && flags.wr && err == BGP_ENOERR && writer.session == Idle
      modifies this
      ensures Valid() && flags == old(flags).(withdrn := true) && err == BGP_ENOERR
      ensures writer == Started(old(writer), InWithdrawn)
    {
      hide Holds;
      var ptr, n := GetWithdrawn();
      StartedWithdrawn(flags.addpath, writer.update, Memory(), n);
      CutOut(ptr, n);
      flags := flags.(withdrn := true);
      writer := Started(writer, InWithdrawn);
    }

    method OpenAttribs()
      requires Valid() && flags.wr && err == BGP_ENOERR && writer.session == Idle
      modifies this
      ensures Valid() && flags == old(flags).(pattr := true) && err == BGP_ENOERR
      ensures writer == Started(old(writer), InAttribs)
    {
      hide Holds, Framed;
      IdleIsFramed(flags.addpath, writer.update, Memory());
      var ptr, n := GetAttribs();
      StartedAttribs(flags.addpath, writer.update, Memory(), ptr, n);
      CutOut(ptr, n);
      flags := flags.(pattr := true);
      writer := Started(writer, InAttribs);
    }

    /** Any previous NLRI is forgotten; nothing follows it. */
    method OpenNlri()
      requires Valid() && flags.wr && err == BGP_ENOERR && writer.session == Idle
      modifies this
      ensures Valid() && flags == old(flags).(nlri := true) && err == BGP_ENOERR
      ensures writer == Started(old(writer), InNlri)
    {
      hide Holds, Framed;
      IdleIsFramed(flags.addpath, writer.update, Memory());
      var ptr, n := GetNlri();
      StartedNlri(flags.addpath, writer.update, Memory(), ptr);
      CutOff(ptr, n);
      flags := flags.(nlri := true);
      writer := Started(writer, InNlri);
    }

    method StartWithdrawn() returns (e: Error)
      requires Valid()
      modifies this, buf
      ensures Valid() && e == err == old(err) && flags.rd == old(flags.rd)
      ensures flags == if err == BGP_ENOERR then NoSession(old(flags)).(withdrn := true) else old(flags)
      ensures flags.wr ==> writer == Apply(old(writer), Op.StartWithdrawn)
      ensures flags.rd ==>
        && buf[..] == old(buf[..]) && pktlen == old(pktlen) && offtab == old(offtab)
        && (err == BGP_ENOERR ==> uptr == 21 && pfxbuf.pfx.family == AF_INET && pfxbuf.pathid == old(pfxbuf).pathid)
    {
      hide Holds, TableOk, Starts, AttrFits;
      if err != BGP_ENOERR {
        return err;
      }
      e := EndPending();
      if flags.wr {
        OpenWithdrawn();
      } else {
        var ptr, n := GetWithdrawn();
        pfxbuf := pfxbuf.(pfx := pfxbuf.pfx.(family := AF_INET));
        uptr, ustart, uend := ptr, ptr, ptr + n;
        flags := flags.(withdrn := true);
      }
    }

    method StartAttribs() returns (e: Error)
      requires Valid()
      modifies this, buf
      ensures Valid() && e == err == old(err) && flags.rd == old(flags.rd)
      ensures flags == if err == BGP_ENOERR then NoSession(old(flags)).(pattr := true) else old(flags)
      ensures flags.wr ==> writer == Apply(old(writer), Op.StartAttribs)
      ensures flags.rd ==>
        && buf[..] == old(buf[..]) && pktlen == old(pktlen) && offtab == old(offtab) && pfxbuf == old(pfxbuf)
        && (err == BGP_ENOERR ==> uptr == AttrsLo(buf[..], pktlen))
    {
      hide Holds, TableOk, AttrFits;
      if err != BGP_ENOERR {
        return err;
      }
      e := EndPending();
      if flags.wr {
        OpenAttribs();
      } else {
        var ptr, n := GetAttribs();
        uptr, ustart, uend := ptr, ptr, ptr + n;
        flags := flags.(pattr := true);
      }
    }

    method StartNlri() returns (e: Error)
      requires Valid()
      modifies this, buf
      ensures Valid() && e == err == old(err) && flags.rd == old(flags.rd)
      ensures flags == if err == BGP_ENOERR then NoSession(old(flags)).(nlri := true) else old(flags)
      ensures flags.wr ==> writer == Apply(old(writer), Op.StartNlri)
      ensures flags.rd ==>
        && buf[..] == old(buf[..]) && pktlen == old(pktlen) && offtab == old(offtab)
        && (err == BGP_ENOERR ==>
              && uptr == AttrsHi(buf[..], pktlen)
              && pfxbuf.pfx.family == AF_INET && pfxbuf.pathid == old(pfxbuf).pathid)
    {
      hide Holds, TableOk, Starts, AttrFits;
      if err != BGP_ENOERR {
        return err;
      }
      e := EndPending();
      if flags.wr {
        OpenNlri();
      } else {
        var ptr, n := GetNlri();
        pfxbuf := pfxbuf.(pfx := pfxbuf.pfx.(family := AF_INET));
        uptr, ustart, uend := ptr, ptr, ptr + n;
        flags := flags.(nlri := true);
      }
    }

    // ---- Writing an entry ------------------------------------------------

    method Append(src: Bytes)
      requires uptr + |src| <= buf.Length
      modifies this`uptr, this`pktlen, buf
      ensures Memory() == Put(old(Memory()), src)
    {
      Memcpy(buf, uptr, src);
      uptr := uptr + |src|;
      pktlen := pktlen + |src|;
    }

    method AppendRoute(r: NetaddrAp)
      requires ValidRoute(r) && uptr + |EncodeRoute(flags.addpath, r)| <= buf.Length
      modifies this`uptr, this`pktlen, buf
      ensures Memory() == Put(old(Memory()), EncodeRoute(flags.addpath, r))
    {
      ghost var m := Memory();
      if flags.addpath {
        Append(U32(r.pathid));
      }
      var len := NaddrSize(r.pfx.bitlen);
      ghost var id := if flags.addpath then U32(r.pathid) else [];
      assert Memory() == Put(m, id);
      Append([r.pfx.bitlen]);
      PutTwice(m, id, [r.pfx.bitlen]);
      Append(r.pfx.bytes[..len]);
      PutTwice(m, id + [r.pfx.bitlen], r.pfx.bytes[..len]);
    }

    method WriteWithdrawn(r: NetaddrAp)
      requires Valid() && ValidRoute(r) && flags.wr && flags.withdrn && err == BGP_ENOERR
      requires pktlen + |EncodeRoute(flags.addpath, r)| <= BGPBUFSIZ
      modifies this`uptr, this`pktlen, this`writer, buf
      ensures Valid() && writer == Apply(old(writer), Op.PutWithdrawn(r))
    {
      hide Holds, Put, EncodeRoute;
      PutOneWithdrawn(flags.addpath, writer.update, Memory(), r);
      AppendRoute(r);
      writer := Apply(writer, Op.PutWithdrawn(r));
    }

    method PutWithdrawn(r: NetaddrAp) returns (e: Error)
      requires Valid() && ValidRoute(r)
      requires flags.wr && flags.withdrn && err == BGP_ENOERR ==>
                 pktlen + |EncodeRoute(flags.addpath, r)| <= BGPBUFSIZ
      modifies this`uptr, this`pktlen, this`err, this`writer, buf
      ensures Valid() && e == err == CheckFlags(old(err), flags.wr && flags.withdrn)
      ensures flags.wr ==> writer == Apply(old(writer), Op.PutWithdrawn(r))
    {
      hide Holds;
      err := CheckFlags(err, flags.wr && flags.withdrn);
      if err != BGP_ENOERR {
        writer := writer.(failed := true);
        return err;
      }
      WriteWithdrawn(r);
      return BGP_ENOERR;
    }

    method WriteNlri(r: NetaddrAp)
      requires Valid() && ValidRoute(r) && flags.wr && flags.nlri && err == BGP_ENOERR
      requires pktlen + |EncodeRoute(flags.addpath, r)| <= BGPBUFSIZ
      modifies this`uptr, this`pktlen, this`writer, buf
      ensures Valid() && writer == Apply(old(writer), Op.PutNlri(r))
    {
      hide Holds, Put, EncodeRoute;
      PutOneNlri(flags.addpath, writer.update, Memory(), r);
      AppendRoute(r);
      writer := Apply(writer, Op.PutNlri(r));
    }

    method PutNlri(r: NetaddrAp) returns (e: Error)
      requires Valid() && ValidRoute(r)
      requires flags.wr && flags.nlri && err == BGP_ENOERR ==>
                 pktlen + |EncodeRoute(flags.addpath, r)| <= BGPBUFSIZ
      modifies this`uptr, this`pktlen, this`err, this`writer, buf
      ensures Valid() && e == err == CheckFlags(old(err), flags.wr && flags.nlri)
      ensures flags.wr ==> writer == Apply(old(writer), Op.PutNlri(r))
    {
      hide Holds;
      err := CheckFlags(err, flags.wr && flags.nlri);
      if err != BGP_ENOERR {
        writer := writer.(failed := true);
        return err;
      }
      WriteNlri(r);
      return BGP_ENOERR;
    }

    method WriteAttrib(a: Attr)
      requires Valid() && ValidAttr(a) && flags.wr && flags.pattr && err == BGP_ENOERR
      requires pktlen + |EncodeAttr(a)| <= BGPBUFSIZ
      modifies this`uptr, this`pktlen, this`writer, buf
      ensures Valid() && writer == Apply(old(writer), Op.PutAttrib(a))
    {
      hide Holds, Put, EncodeAttr;
      PutOneAttrib(flags.addpath, writer.update, Memory(), a);
      Append(EncodeAttr(a));
      writer := Apply(writer, Op.PutAttrib(a));
    }

    method PutAttrib(a: Attr) returns (e: Error)
      requires Valid() && ValidAttr(a)
      requires flags.wr && flags.pattr && err == BGP_ENOERR ==> pktlen + |EncodeAttr(a)| <= BGPBUFSIZ
      modifies this`uptr, this`pktlen, this`err, this`writer, buf
      ensures Valid() && e == err == CheckFlags(old(err), flags.wr && flags.pattr)
      ensures flags.wr ==> writer == Apply(old(writer), Op.PutAttrib(a))
    {
      hide Holds;
      err := CheckFlags(err, flags.wr && flags.pattr);
      if err != BGP_ENOERR {
        writer := writer.(failed := true);
        return err;
      }
      WriteAttrib(a);
      return BGP_ENOERR;
    }

    // ---- Reading an entry ------------------------------------------------

    /** The part nextwithdrawn_r and nextnlri_r share: one prefix into pfxbuf. */
    method NextPrefix(bad: Error) returns (r: Option<NetaddrAp>)
      requires uptr < uend <= buf.Length && bad != BGP_ENOERR
      requires RouteInRange(flags.addpath, buf[..], uptr, uend)
      modifies this`uptr, this`pfxbuf, this`err
      ensures match RouteAt(flags.addpath, old(pfxbuf), buf[..], old(uptr), uend)
              case End => false
              case Bad => r == None && err == bad
              case Got(v, q) => r == Some(v) && pfxbuf == v && uptr == q && err == old(err)
    {
      hide NaddrSize, BE32, Zeros;
      var pfx := pfxbuf.pfx.(bytes := Zeros(16));
      var pathid := pfxbuf.pathid;
      if flags.addpath {
        if uptr + 4 >= uend {
          pfxbuf := NetaddrAp(pfx, pathid);
          err := bad;
          return None;
        }
        pathid := BE32(buf[..], uptr);
        uptr := uptr + 4;
      }
      var bitlen := buf[uptr];
      uptr := uptr + 1;
      var n := NaddrSize(bitlen);
      if uptr + n > uend {
        pfxbuf := NetaddrAp(pfx, pathid);
        err := bad;
        return None;
      }
      pfx := pfx.(bitlen := bitlen, bytes := buf[uptr..uptr + n] + Zeros(16 - n));
      pfxbuf := NetaddrAp(pfx, pathid);
      uptr := uptr + n;
      return Some(pfxbuf);
    }

    method NextWithdrawn() returns (r: Option<NetaddrAp>)
      requires Valid()
      requires flags.rd && flags.withdrn && err == BGP_ENOERR ==>
                 RouteInRange(flags.addpath, buf[..], uptr, uend)
      modifies this`uptr, this`pfxbuf, this`err, this`writer
      ensures Valid()
      ensures if CheckFlags(old(err), flags.rd && flags.withdrn) != BGP_ENOERR
              then r == None && err == CheckFlags(old(err), flags.rd && flags.withdrn)
              else match RouteAt(flags.addpath, old(pfxbuf), buf[..], old(uptr), uend)
                case End => r == None && err == BGP_ENOERR && uptr == old(uptr) && pfxbuf == old(pfxbuf)
                case Bad => r == None && err == BGP_EBADWDRWN
                case Got(v, q) => r == Some(v) && pfxbuf == v && uptr == q && err == BGP_ENOERR
    {
      hide Holds, TableOk;
      err := CheckFlags(err, flags.rd && flags.withdrn);
      if err != BGP_ENOERR {
        writer := writer.(failed := true);
        return None;
      }
      if uptr == uend {
        return None;
      }
      r := NextPrefix(BGP_EBADWDRWN);
    }

    method NextNlri() returns (r: Option<NetaddrAp>)
      requires Valid()
      requires flags.rd && flags.nlri && err == BGP_ENOERR ==>
                 RouteInRange(flags.addpath, buf[..], uptr, uend)
      modifies this`uptr, this`pfxbuf, this`err, this`writer
      ensures Valid()
      ensures if CheckFlags(old(err), flags.rd && flags.nlri) != BGP_ENOERR
              then r == None && err == CheckFlags(old(err), flags.rd && flags.nlri)
              else match RouteAt(flags.addpath, old(pfxbuf), buf[..], old(uptr), uend)
                case End => r == None && err == BGP_ENOERR && uptr == old(uptr) && pfxbuf == old(pfxbuf)
                case Bad => r == None && err == BGP_EBADNLRI
                case Got(v, q) => r == Some(v) && pfxbuf == v && uptr == q && err == BGP_ENOERR
    {
      hide Holds, TableOk;
      err := CheckFlags(err, flags.rd && flags.nlri);
      if err != BGP_ENOERR {
        writer := writer.(failed := true);
        return None;
      }
      if uptr == uend {
        return None;
      }
      r := NextPrefix(BGP_EBADNLRI);
    }

    /** Moves the cursor over one attribute, unless it is cut short. */
    method SkipAttrib() returns (whole: bool)
      requires uptr < uend <= buf.Length
      modifies this`uptr
      ensures whole == AttrFits(buf[..], old(uptr), uend)
      ensures whole ==> uptr == AttrEnd(buf[..], old(uptr))
    {
      if uptr + 3 > uend {
        return false;
      }
      var flags, hdrsize, len: nat := buf[uptr], 3, buf[uptr + 2];
      if Extended(flags) {
        if uptr + 4 > uend {
          return false;
        }
        hdrsize := 4;
        len := 256 * len + buf[uptr + 3];
      }
      uptr := uptr + hdrsize;
      if uptr + len > uend {
        return false;
      }
      uptr := uptr + len;
      return true;
    }

    /** nextbgpattrib_r; the result is where the attribute starts. */
    method NextAttrib() returns (r: Option<nat>)
      requires Valid()
      modifies this`uptr, this`offtab, this`err, this`writer
      ensures Valid()
      ensures if CheckFlags(old(err), flags.rd && flags.pattr) != BGP_ENOERR then
                r == None && err == CheckFlags(old(err), flags.rd && flags.pattr) && offtab == old(offtab)
              else if old(uptr) == uend then
                r == None && err == BGP_ENOERR && uptr == old(uptr) && offtab == old(offtab)
              else if !AttrFits(buf[..], old(uptr), uend) then
                r == None && err == BGP_EBADATTR && offtab == old(offtab)
              else
                && r == Some(old(uptr)) && err == BGP_ENOERR && uptr == AttrEnd(buf[..], old(uptr))
                && offtab == Noted(buf[..], old(uptr), old(offtab))
    {
      hide Holds, TableOk, Starts;
      err := CheckFlags(err, flags.rd && flags.pattr);
      if err != BGP_ENOERR {
        writer := writer.(failed := true);
        return None;
      }
      if uptr == uend {
        return None;
      }
      var attr := uptr;
      var whole := SkipAttrib();
      if !whole {
        err := BGP_EBADATTR;
        return None;
      }
      StartsNext(buf[..], ustart, uend, attr);
      NotedOk(buf[..], ustart, uend, offtab, attr);
      var idx := AttrIndex(buf[attr + 1]);
      if idx >= 0 {
        offtab := offtab[idx := attr];
      }
      return Some(attr);
    }

    /** The loop of seekbgpattr: walks until the code turns up or the list ends. */
    method ScanFor(code: Byte) returns (r: Option<nat>)
      requires Valid() && flags.rd && flags.pattr && err == BGP_ENOERR
      requires Notable(code) && uptr == ustart
      modifies this`uptr, this`offtab, this`err, this`writer
      ensures Valid()
      ensures r.Some? ==> err == BGP_ENOERR && offtab[AttrIndex(code)] == r.value
      ensures r.Some? ==> Occurs(buf[..], ustart, uend, code, r.value)
      ensures r.None? && err == BGP_ENOERR ==> SeenBefore(buf[..], ustart, uend, uend, offtab)
      ensures WholeFrom(buf[..], ustart, uend) ==> err == BGP_ENOERR
      ensures err == BGP_ENOERR ==> offtab == Walked(buf[..], ustart, uend, old(offtab), code)
    {
      ghost var want := Walked(buf[..], ustart, uend, offtab, code);
      SeenAtStart(buf[..], ustart, uend, offtab);
      r := FollowNext();
      while r.Some? && buf[r.value + 1] != code
        invariant Valid() && ScanOk(r)
        invariant r.Some? ==> r.value + 1 < buf.Length && Occurs(buf[..], ustart, uend, buf[r.value + 1], r.value)
        invariant r.Some? && Notable(buf[r.value + 1]) ==> offtab[AttrIndex(buf[r.value + 1])] == r.value
        invariant r.None? && err == BGP_ENOERR ==> offtab == want
        invariant r.Some? ==>
                    want == if buf[r.value + 1] == code then offtab else Walked(buf[..], uptr, uend, offtab, code)
        decreases r.Some?, uend - uptr
      {
        r := FollowNext();
      }
    }

    /** The walk so far has missed nothing, and has stopped only at the end. */
    ghost predicate ScanOk(r: Option<nat>)
      requires Valid() && flags.rd && flags.pattr && ustart <= uend <= buf.Length
      reads this, buf
    {
      && (WholeFrom(buf[..], ustart, uend) ==> err == BGP_ENOERR)
      && (r.Some? ==> err == BGP_ENOERR)
      && (err == BGP_ENOERR ==> SeenBefore(buf[..], ustart, uend, uptr, offtab))
      && (r.None? && err == BGP_ENOERR ==> uptr == uend)
    }

    method FollowNext() returns (r: Option<nat>)
      requires Valid() && flags.rd && flags.pattr && err == BGP_ENOERR
      requires SeenBefore(buf[..], ustart, uend, uptr, offtab)
      modifies this`uptr, this`offtab, this`err, this`writer
      ensures Valid() && ScanOk(r)
      ensures r.Some? ==> uptr > old(uptr) && r.value + 1 < buf.Length
      ensures r.Some? ==> Occurs(buf[..], ustart, uend, buf[r.value + 1], r.value)
      ensures r.Some? && Notable(buf[r.value + 1]) ==> offtab[AttrIndex(buf[r.value + 1])] == r.value
      ensures r.Some? ==>
                && r.value == old(uptr) < uend && AttrFits(buf[..], r.value, uend)
                && uptr == AttrEnd(buf[..], r.value) && offtab == Noted(buf[..], r.value, old(offtab))
      ensures r.None? && err == BGP_ENOERR ==> old(uptr) == uend && offtab == old(offtab)
    {
      if uptr < uend {
        ScanStep(buf[..], ustart, uend, uptr, offtab);
      }
      r := NextAttrib();
    }

    /** The branch of seekbgpattr that walks the list, iterator saved and
        restored; false when the walk met an error. */
    method FillTable(code: Byte) returns (ok: bool)
      requires Valid() && Notable(code) && flags.rd && err == BGP_ENOERR && offtab[AttrIndex(code)] == 0
      modifies this, buf
      ensures Valid() && pktlen == old(pktlen) && pfxbuf == old(pfxbuf)
      ensures flags.rd && buf[..] == old(buf[..])
      ensures ok == (err == BGP_ENOERR)
      ensures ok ==> (flags, ustart, uptr, uend) == old((flags, ustart, uptr, uend)) && offtab[AttrIndex(code)] != 0
      ensures ok ==> offtab == Sought(buf[..], AttrsLo(buf[..], pktlen), AttrsHi(buf[..], pktlen), old(offtab), code)
      ensures WholeList() ==> ok
    {
      hide Holds, TableOk, Starts, Walked, Occurs, SeenBefore;
      var saved := (flags, ustart, uptr, uend);
      var e := StartAttribs();
      var attr := ScanFor(code);
      e := EndAttribs();
      if e != BGP_ENOERR {
        return false;
      }
      flags, ustart, uptr, uend := saved.0, saved.1, saved.2, saved.3;
      if offtab[AttrIndex(code)] == 0 {
        RemappedOk(buf[..], AttrsLo(buf[..], pktlen), AttrsHi(buf[..], pktlen), offtab);
        offtab := Remapped(offtab);
      }
      return true;
    }

    /** seekbgpattr: the attribute comes from the offset table, which a walk
        fills when it knows nothing; a reading session is left where it was. */
    method Seek(code: Byte) returns (r: Option<nat>)
      requires Valid() && Notable(code)
      modifies this, buf
      ensures Valid() && pktlen == old(pktlen) && pfxbuf == old(pfxbuf)
      ensures flags.rd == old(flags.rd) && (flags.rd ==> buf[..] == old(buf[..]))
      ensures CheckFlags(old(err), flags.rd) != BGP_ENOERR ==> r == None && err == CheckFlags(old(err), flags.rd)
      ensures flags.rd && err == BGP_ENOERR ==>
        && (flags, ustart, uptr, uend) == old((flags, ustart, uptr, uend))
        && Found(buf[..], AttrsLo(buf[..], pktlen), AttrsHi(buf[..], pktlen), code, r)
        && offtab == Sought(buf[..], AttrsLo(buf[..], pktlen), AttrsHi(buf[..], pktlen), old(offtab), code)
        && r == Answer(offtab, code)
      ensures flags.rd && old(err) == BGP_ENOERR && WholeList() ==> err == BGP_ENOERR
    {
      err := CheckFlags(err, flags.rd);
      if err != BGP_ENOERR {
        writer := writer.(failed := true);
        return None;
      }
      if offtab[AttrIndex(code)] == 0 {
        var ok := FillTable(code);
        if !ok {
          return None;
        }
      }
      var off := offtab[AttrIndex(code)];
      if off == OFFSET_NOT_FOUND {
        return None;
      }
      return Some(off);
    }

    // ---- From writing to reading -----------------------------------------

    /** bgpfinish_r; None for an error, else the length of the message. */
    method Finish() returns (r: Option<nat>)
      requires Valid()
      modifies this, buf
      ensures Valid()
      ensures if CheckFlags(old(err), old(flags).wr) != BGP_ENOERR
              then r == None && err == CheckFlags(old(err), old(flags).wr) && flags == old(flags)
              else
                && r == Some(pktlen) && err == BGP_ENOERR
                && flags == NoSession(old(flags)).(rd := true, wr := false)
                && Carries(flags.addpath, old(writer).update, buf[..], pktlen)
                && offtab == Zeros(OFFTAB_SIZE)
    {
      err := CheckFlags(err, flags.wr);
      if err != BGP_ENOERR {
        writer := writer.(failed := true);
        return None;
      }
      var e := EndPending();
      Seal();
      return Some(pktlen);
    }

    method Seal()
      requires Valid() && flags.wr && err == BGP_ENOERR && writer.session == Idle
      modifies this`flags, this`offtab, buf
      ensures Valid() && flags == old(flags).(rd := true, wr := false)
      ensures Carries(flags.addpath, writer.update, buf[..], pktlen) && offtab == Zeros(OFFTAB_SIZE)
    {
      hide Holds, Carries, Readable, Starts;
      Finished(flags.addpath, writer.update, Memory());
      FinishedIsReadable(flags.addpath, writer.update, Written(buf[..], LENGTH_OFFSET, U16(pktlen)), pktlen);
      Memcpy(buf, LENGTH_OFFSET, U16(pktlen));
      offtab := Zeros(OFFTAB_SIZE);
      flags := flags.(wr := false, rd := true);
    }
  }

  lemma FinishedIsReadable(ap: bool, u: Update, b: Bytes, pktlen: nat)
    requires Carries(ap, u, b, pktlen)
    ensures Readable(b, pktlen)
    ensures WholeFrom(b, AttrsLo(b, pktlen), AttrsHi(b, pktlen))
  {
    WrittenIsWhole(b, AttrsLo(b, pktlen), AttrsHi(b, pktlen), u.attribs);
  }
}

// The copy-on-write handle around a distinguished name (class DN in src/dn.cpp).

module DnHandle {
  import opened DnOrders
  import opened DnPrinter
  import opened DnReorder

  const DEFAULT_ORDER: seq<string> := ["CN", "L", "_X_", "OU", "O", "C"]

  // The shared data. Deleting it is recorded in a flag, and nothing may touch it afterwards.
  class Private {
    var attributes: seq<Attribute>
    var reorderedAttributes: seq<Attribute>
    var order: seq<string>
    var mRefCount: int
    ghost var sharers: set<DN>  // the live handles on this object
    ghost var freed: bool

    constructor ()
      ensures attributes == [] && reorderedAttributes == [] && order == []
      ensures mRefCount == 0 && sharers == {} && !freed
    {
      attributes, reorderedAttributes, order, mRefCount := [], [], [], 0;
      sharers, freed := {}, false;
    }

    // The copy takes over the cached list, but not the order that it was made with.
    constructor Copy(other: Private)
      requires !other.freed
      ensures attributes == other.attributes && reorderedAttributes == other.reorderedAttributes
      ensures order == DEFAULT_ORDER && mRefCount == 0 && sharers == {} && !freed
    {
      attributes, reorderedAttributes := other.attributes, other.reorderedAttributes;
      order, mRefCount := DEFAULT_ORDER, 0;
      sharers, freed := {}, false;
    }

    method Ref(ghost handle: DN) returns (count: int)
      requires !freed && handle !in sharers
      modifies `mRefCount, `sharers
      ensures mRefCount == old(mRefCount) + 1 && count == mRefCount
      ensures sharers == old(sharers) + {handle}
    {
      mRefCount := mRefCount + 1;
      sharers := sharers + {handle};
      count := mRefCount;
    }

    method Unref(ghost handle: DN) returns (count: int)
      requires !freed && handle in sharers
      modifies `mRefCount, `sharers, `freed
      ensures mRefCount == old(mRefCount) - 1 && sharers == old(sharers) - {handle}
      ensures freed <==> mRefCount <= 0
      ensures count == if freed then 0 else mRefCount
    {
      mRefCount := mRefCount - 1;
      sharers := sharers - {handle};
      if mRefCount <= 0 {
        freed := true;
        return 0;
      }
      count := mRefCount;
    }

    // The cached list is empty or what reordering would give.
    ghost predicate Coherent()
      reads `attributes, `reorderedAttributes, `order
    {
      reorderedAttributes == [] || reorderedAttributes == Reordered(attributes, order)
    }
  }

  // The counter is the number of live handles, and the object is freed exactly when it has
  // none.
  ghost predicate Counted(p: Private)
    reads p`mRefCount, p`sharers, p`freed
  {
    p.mRefCount == |p.sharers| && (p.freed <==> p.sharers == {})
  }

  // A live handle is one of the sharers of its object.
  ghost predicate Attached(h: DN, privates: set<Private>)
    reads h, privates`sharers
  {
    h.d != null ==> h.d in privates && h in h.d.sharers
  }

  // The sharers of an object are live handles that point to it.
  ghost predicate Shared(p: Private, handles: set<DN>)
    reads p`sharers, handles
  {
    forall h :: h in p.sharers ==> h in handles && h.d == p
  }

  // All live handles and all shared objects: each object counts right, and its sharers are
  // the live handles that point to it.
  ghost predicate Sound(handles: set<DN>, privates: set<Private>)
    reads handles, privates`mRefCount, privates`sharers, privates`freed
  {
    && (forall p :: p in privates ==> Counted(p) && Shared(p, handles))
    && (forall h :: h in handles ==> Attached(h, privates))
  }

  ghost predicate AllCoherent(privates: set<Private>)
    reads privates`attributes, privates`reorderedAttributes, privates`order
  {
    forall p :: p in privates ==> p.Coherent()
  }

  // In particular no live handle points to a freed object.
  lemma NoDanglingHandle(handles: set<DN>, privates: set<Private>, p: Private)
    requires Sound(handles, privates) && p in privates
    ensures p.mRefCount == |set h | h in handles && h.d == p|
    ensures p.freed <==> forall h :: h in handles ==> h.d != p
  {
    assert (set h | h in handles && h.d == p) == p.sharers;
  }

  class DN {
    var d: Private?

    // The attributes seen through this handle
    ghost function Value(): seq<Attribute>
      reads this, d
    {
      if d == null then [] else d.attributes
    }

    ghost function Order(): seq<string>
      reads this, d
    {
      if d == null then [] else d.order
    }

    constructor (ghost handles: set<DN>, ghost privates: set<Private>)
      requires Sound(handles, privates)
      ensures d != null && fresh(d) && Value() == []
      ensures d.order == [] && d.reorderedAttributes == []
      ensures Sound(handles + {this}, privates + {d})
    {
      var p := new Private();
      d := p;
      new;
      var _ := p.Ref(this);
    }

    // The source's constructor from a string
    static method FromText(text: string, ghost handles: set<DN>, ghost privates: set<Private>) returns (h: DN)
      requires Sound(handles, privates)
      ensures fresh(h) && h.d != null && fresh(h.d) && h.Value() == AttributesOf(text)
      ensures h.d.order == [] && h.d.reorderedAttributes == []
      ensures Sound(handles + {h}, privates + {h.d})
    {
      var attributes := ParseDn(text);
      h := new DN(handles, privates);
      h.d.attributes := attributes;
    }

    constructor Copy(other: DN, ghost handles: set<DN>, ghost privates: set<Private>)
      requires Sound(handles, privates) && other in handles
      modifies other.d
      ensures d == other.d && Value() == old(other.Value())
      ensures d != null ==> unchanged(d`attributes, d`reorderedAttributes, d`order)
      ensures old(AllCoherent(privates)) ==> AllCoherent(privates)
      ensures Sound(handles + {this}, privates)
    {
      d := other.d;
      new;
      if d != null {
        assert Counted(d) && Shared(d, handles) && this !in d.sharers;
        var _ := d.Ref(this);
        assert Counted(d) && Shared(d, handles + {this});
      }
      forall q | q in privates ensures Counted(q) && Shared(q, handles + {this}) {
        assert q != d ==> old(Counted(q)) && old(Shared(q, handles));
      }
      forall h | h in handles + {this} ensures Attached(h, privates) {
        assert h != this ==> old(Attached(h, privates));
      }
    }

    // The destructor; the handle is live no more.
    method Destroy(ghost handles: set<DN>, ghost privates: set<Private>)
      requires Sound(handles, privates) && this in handles
      modifies d
      ensures d != null ==> unchanged(d`attributes, d`reorderedAttributes, d`order)
      ensures d != null ==> (d.freed <==> old(d.sharers) == {this})
      ensures old(AllCoherent(privates)) ==> AllCoherent(privates)
      ensures Sound(handles - {this}, privates)
    {
      if d != null {
        var _ := d.Unref(this);
      }
    }

    method Assign(that: DN, ghost handles: set<DN>, ghost privates: set<Private>)
      requires Sound(handles, privates) && this in handles && that in handles
      modifies this, d, that.d
      ensures d == old(that.d) && Value() == old(that.Value())
      ensures forall p :: p in privates ==> unchanged(p`attributes, p`reorderedAttributes, p`order)
      ensures old(d) != null && old(d) != d ==> (old(d).freed <==> old(d.sharers) == {this})
      ensures Sound(handles, privates)
    {
      if d == that.d {
        return;
      }
      if that.d == null {
        var _ := d.Unref(this);
        d := null;
      } else if d == null {
        TakeUp(that.d, handles, privates);
      } else {
        SwitchTo(that.d, handles, privates);
      }
    }

    method TakeUp(p: Private, ghost handles: set<DN>, ghost privates: set<Private>)
      requires Sound(handles, privates) && this in handles && p in privates && !p.freed
      requires d == null
      modifies `d, p`mRefCount, p`sharers
      ensures d == p && Sound(handles, privates)
    {
      var _ := p.Ref(this);
      d := p;
    }

    method SwitchTo(p: Private, ghost handles: set<DN>, ghost privates: set<Private>)
      requires Sound(handles, privates) && this in handles && p in privates && !p.freed
      requires d != null && d != p
      modifies `d, d`mRefCount, d`sharers, d`freed, p`mRefCount, p`sharers
      ensures d == p && Sound(handles, privates)
      ensures old(d).freed <==> old(d.sharers) == {this}
    {
      ghost var before := d;
      assert Counted(p) && Counted(before) && Shared(p, handles) && Shared(before, handles);
      assert this !in p.sharers && this in before.sharers;
      var _ := p.Ref(this);
      var _ := d.Unref(this);
      d := p;
      forall q | q in privates ensures Counted(q) && Shared(q, handles) {
        assert q != p && q != before ==> old(Counted(q)) && old(Shared(q, handles)) && this !in q.sharers;
      }
      forall h | h in handles ensures Attached(h, privates) {
        assert old(Attached(h, privates));
      }
    }

    // After this the handle alone points to its object.
    method Detach(ghost handles: set<DN>, ghost privates: set<Private>)
      requires Sound(handles, privates) && this in handles
      modifies this, d
      ensures d != null && d.sharers == {this} && (fresh(d) || d == old(d))
      ensures Value() == old(Value())
      ensures forall p :: p in privates ==> unchanged(p`attributes, p`reorderedAttributes, p`order)
      ensures old(d) == null ==> fresh(d) && d.order == []
      ensures old(d) != null && old(d.sharers) == {this} ==> d == old(d)
      ensures old(d) != null && old(d.sharers) != {this} ==> fresh(d) && d.order == DEFAULT_ORDER
      ensures Sound(handles, privates + {d})
    {
      if d == null {
        d := new Private();
        var _ := d.Ref(this);
      } else if d.mRefCount > 1 {
        DetachShared(handles, privates);
      } else {
        OnlyOne(d.sharers, this);
        assert privates + {d} == privates;
      }
    }

    method DetachShared(ghost handles: set<DN>, ghost privates: set<Private>)
      requires Sound(handles, privates) && this in handles && d != null && d.mRefCount > 1
      modifies this, d
      ensures d != null && fresh(d) && d.sharers == {this} && d.order == DEFAULT_ORDER
      ensures d.attributes == old(d.attributes)
      ensures unchanged(old(d)`attributes, old(d)`reorderedAttributes, old(d)`order, old(d)`freed)
      ensures Sound(handles, privates + {d})
    {
      var dSave := d;
      d := new Private.Copy(dSave);
      var _ := d.Ref(this);
      var _ := dSave.Unref(this);
      StillShared(dSave.sharers, dSave.mRefCount);
    }

    // The new attribute is seen through this handle only.
    method Append(attr: Attribute, ghost handles: set<DN>, ghost privates: set<Private>)
      requires Sound(handles, privates) && this in handles
      modifies this, d
      ensures d != null && d.sharers == {this} && (fresh(d) || d == old(d))
      ensures Value() == old(Value()) + [attr] && d.reorderedAttributes == []
      ensures forall h {:trigger h.Value()} :: h in handles && h != this ==>
                            h.Value() == old(h.Value()) && h.Order() == old(h.Order())
      ensures d.order == if old(d) == null then [] else if fresh(d) then DEFAULT_ORDER else old(d.order)
      ensures fresh(d) <==> old(d) == null || old(d.sharers) != {this}
      ensures fresh(d) && old(d) != null ==>
                unchanged(old(d)`attributes, old(d)`reorderedAttributes, old(d)`order)
      ensures old(AllCoherent(privates)) ==> AllCoherent(privates + {d})
      ensures Sound(handles, privates + {d})
    {
      Detach(handles, privates);
      forall h | h in handles && h != this
        ensures h.d != d && h.Value() == old(h.Value()) && h.Order() == old(h.Order())
      {
        assert Attached(h, privates + {d}) && old(Attached(h, privates));
      }
      d.attributes := d.attributes + [attr];
      d.reorderedAttributes := [];
    }

    // The list that the pretty printers show; it fills the cache.
    method FillCache(ghost handles: set<DN>, ghost privates: set<Private>)
      requires Sound(handles, privates) && this in handles && d != null
      modifies d`reorderedAttributes
      ensures d.reorderedAttributes == if old(d.reorderedAttributes) == [] then Reordered(d.attributes, d.order)
                                       else old(d.reorderedAttributes)
      ensures old(d.Coherent()) ==> d.Coherent() && d.reorderedAttributes == Reordered(d.attributes, d.order)
      ensures old(AllCoherent(privates)) ==> AllCoherent(privates)
      ensures Sound(handles, privates)
    {
      if d.reorderedAttributes == [] {
        d.reorderedAttributes := ReorderDn(d.attributes, d.order);
      }
    }

    method PrettyDN(ghost handles: set<DN>, ghost privates: set<Private>) returns (text: string)
      requires Sound(handles, privates) && this in handles
      modifies d
      ensures d != null ==> unchanged(d`attributes, d`order, d`mRefCount, d`sharers, d`freed)
      ensures d != null ==>
                && d.reorderedAttributes == (if old(d.reorderedAttributes) == [] then Reordered(d.attributes, d.order)
                                             else old(d.reorderedAttributes))
                && text == Serialised(d.reorderedAttributes, ",")
      ensures d != null && old(d.Coherent()) ==>
                d.Coherent() && text == Serialised(Reordered(d.attributes, d.order), ",")
      ensures d == null ==> text == ""
      ensures old(AllCoherent(privates)) ==> AllCoherent(privates)
      ensures Sound(handles, privates)
    {
      if d == null {
        return "";
      }
      FillCache(handles, privates);
      text := Serialise(d.reorderedAttributes, ",");
    }

    method PrettyAttributes(ghost handles: set<DN>, ghost privates: set<Private>) returns (items: seq<string>)
      requires Sound(handles, privates) && this in handles
      modifies d
      ensures d != null ==> unchanged(d`attributes, d`order, d`mRefCount, d`sharers, d`freed)
      ensures d != null ==>
                && d.reorderedAttributes == (if old(d.reorderedAttributes) == [] then Reordered(d.attributes, d.order)
                                             else old(d.reorderedAttributes))
                && items == Items(d.reorderedAttributes)
      ensures d != null && old(d.Coherent()) ==>
                d.Coherent() && items == Items(Reordered(d.attributes, d.order))
      ensures d == null ==> items == []
      ensures old(AllCoherent(privates)) ==> AllCoherent(privates)
      ensures Sound(handles, privates)
    {
      if d == null {
        return [];
      }
      FillCache(handles, privates);
      items := ListAttributes(d.reorderedAttributes);
    }

    // The order is stored in the shared object, so every handle on it gets the order too; and
    // the cached list stays as it is.
    method SetAttributeOrder(order: seq<string>, ghost handles: set<DN>, ghost privates: set<Private>)
      requires Sound(handles, privates) && this in handles && d != null
      modifies d`order
      ensures d.order == order
      ensures old(d.Coherent()) ==>
                (d.Coherent() <==> d.reorderedAttributes == [] || Agree(d.attributes, old(d.order), order))
      ensures old(AllCoherent(privates)) && d.reorderedAttributes == [] ==> AllCoherent(privates)
      ensures Sound(handles, privates)
    {
      AgreeExact(d.attributes, d.order, order);
      d.order := order;
    }
  }

  lemma StillShared(s: set<DN>, n: int)
    requires |s| == n && n > 0
    ensures s != {}
  {
  }

  lemma OnlyOne(s: set<DN>, x: DN)
    requires x in s && |s| <= 1
    ensures s == {x}
  {
    assert |s - {x}| == 0;
  }
}

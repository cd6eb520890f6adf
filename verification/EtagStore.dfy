/**
 One key of the control root, as `lakehouse_kit/records.py` drives it: a create that lands only where nothing
 is stored, a replace that lands only under the ETag that was read, a delete, and the store's own clock.

 Nothing is assumed of an ETag beyond what a precondition needs: one ETag never names two different bodies. A
 version counter satisfies that, and so does a hash of the content, under which a body written a second time
 carries its old ETag again.

 A write that does not land leaves the key as it was. An s3 root keeps to that; a local root does except where
 it replaces a key that was deleted since the read, which `BaseClaims` adds as a step of its own.
 */
module EtagStore {
  import opened Outcomes

  type Etag = nat

  datatype Stored<Body> = Stored(body: Body, etag: Etag)

  /** `named` remembers the body each ETag was ever given to. */
  datatype Cell<Body> = Cell(stored: Option<Stored<Body>>, clock: int, named: map<Etag, Body>)

  predicate Valid<Body(==)>(c: Cell<Body>) {
    c.stored.Some? ==> c.stored.value.etag in c.named && c.named[c.stored.value.etag] == c.stored.value.body
  }

  /** Whether the store may give `body` the ETag `etag`. */
  predicate MayName<Body(==)>(c: Cell<Body>, body: Body, etag: Etag) {
    etag in c.named ==> c.named[etag] == body
  }

  function Put<Body>(c: Cell<Body>, body: Body, etag: Etag): Cell<Body> {
    c.(stored := Some(Stored(body, etag)), named := c.named[etag := body])
  }

  predicate CreateLands<Body(==)>(c: Cell<Body>, body: Body, etag: Etag) {
    c.stored.None? && MayName(c, body, etag)
  }

  predicate ReplaceLands<Body(==)>(c: Cell<Body>, body: Body, expected: Etag, etag: Etag) {
    c.stored.Some? && c.stored.value.etag == expected && MayName(c, body, etag)
  }

  /** The conditional write both branches of a read-judge-write make: a create when the read found
      nothing, a replace under the ETag read otherwise. */
  predicate WriteLands<Body(==)>(c: Cell<Body>, read: Option<Stored<Body>>, body: Body, etag: Etag) {
    if read.None? then CreateLands(c, body, etag) else ReplaceLands(c, body, read.value.etag, etag)
  }

  function Delete<Body>(c: Cell<Body>): Cell<Body> {
    c.(stored := None)
  }

  function Advance<Body>(c: Cell<Body>, elapsed: nat): Cell<Body> {
    c.(clock := c.clock + elapsed)
  }

  /** What was read is still what its ETag names. */
  predicate StillNamed<Body(==)>(c: Cell<Body>, read: Option<Stored<Body>>) {
    read.Some? ==> read.value.etag in c.named && c.named[read.value.etag] == read.value.body
  }

  /** A conditional write that lands acts on exactly the content its reader judged, whatever was
      written, deleted and written back in between. */
  lemma {:induction false} WriteActsOnWhatWasRead<Body>(
      c: Cell<Body>, read: Option<Stored<Body>>, body: Body, etag: Etag)
    requires Valid(c) && StillNamed(c, read) && WriteLands(c, read, body, etag)
    ensures read.None? <==> c.stored.None?
    ensures read.Some? ==> c.stored.value == read.value
  {
  }

  lemma {:induction false} BoundAbove(etags: set<Etag>) returns (bound: Etag)
    ensures forall e :: e in etags ==> e < bound
  {
    if etags == {} {
      bound := 0;
    } else {
      var e :| e in etags;
      bound := BoundAbove(etags - {e});
      assert forall x :: x in etags ==> x == e || x in etags - {e};
      if bound <= e {
        bound := e + 1;
      }
    }
  }

  /** A store always has an ETag left to give. */
  lemma {:induction false} SomeNameIsLeft<Body>(c: Cell<Body>, body: Body)
    ensures exists etag :: MayName(c, body, etag)
  {
    var unused := BoundAbove(c.named.Keys);
    assert MayName(c, body, unused);
  }
}

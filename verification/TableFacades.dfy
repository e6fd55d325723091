/** The two lists that ghost-table reconciliation compares: the catalogue (the tables really in
    the user's database) and the rows of `user_tables`.  Every entry is an (id, name) pair, and an
    entry is stale in exactly one of four ways, defined here on sets. */
module TableFacades {

  /** A table seen by the manager.  All facades of one manager share the user, so equality is on
      id and name. */
  datatype TableFacade = TableFacade(id: int, name: string)

  /** No two entries share an id or a name. */
  ghost predicate Unique(s: set<TableFacade>) {
    forall t, u :: t in s && u in s && (t.id == u.id || t.name == u.name) ==> t == u
  }

  /** Catalogue entries whose id no row has. */
  ghost predicate Absent(C: set<TableFacade>, R: set<TableFacade>, t: TableFacade) {
    t in C && forall r :: r in R ==> r.id != t.id
  }

  /** Rows whose id is not in the catalogue. */
  ghost predicate Missing(C: set<TableFacade>, R: set<TableFacade>, r: TableFacade) {
    r in R && forall c :: c in C ==> c.id != r.id
  }

  ghost predicate IsRenamed(C: set<TableFacade>, R: set<TableFacade>, t: TableFacade) {
    t in C && exists r :: r in R && r.id == t.id && r.name != t.name
  }

  ghost predicate IsRegenerated(C: set<TableFacade>, R: set<TableFacade>, t: TableFacade) {
    Absent(C, R, t) && exists r :: Missing(C, R, r) && r.name == t.name
  }

  ghost predicate IsAdded(C: set<TableFacade>, R: set<TableFacade>, t: TableFacade) {
    Absent(C, R, t) && !IsRegenerated(C, R, t)
  }

  ghost predicate IsDropped(C: set<TableFacade>, R: set<TableFacade>, r: TableFacade) {
    Missing(C, R, r) && forall t :: IsRegenerated(C, R, t) ==> t.name != r.name
  }

  /** The catalogue entry a row stands for: the one with its id, or, when neither id is known to
      the other side, the one with its name. */
  ghost predicate Counterpart(C: set<TableFacade>, R: set<TableFacade>, r: TableFacade, t: TableFacade) {
    r in R && t in C && (r.id == t.id || (Missing(C, R, r) && Absent(C, R, t) && r.name == t.name))
  }

  /** Counterparts pair rows and catalogue entries one to one; what is left over on the row side
      is exactly what is dropped, and on the catalogue side exactly what is added. */
  lemma CounterpartsPairUp(C: set<TableFacade>, R: set<TableFacade>)
    requires Unique(C) && Unique(R)
    ensures forall r, t, u :: Counterpart(C, R, r, t) && Counterpart(C, R, r, u) ==> t == u
    ensures forall r, s, t :: Counterpart(C, R, r, t) && Counterpart(C, R, s, t) ==> r == s
    ensures forall r :: r in R ==> (IsDropped(C, R, r) <==> forall t :: !Counterpart(C, R, r, t))
    ensures forall t :: t in C ==> (IsAdded(C, R, t) <==> forall r :: !Counterpart(C, R, r, t))
  {
    forall r | r in R
      ensures IsDropped(C, R, r) <==> forall t :: !Counterpart(C, R, r, t)
    {
      if IsDropped(C, R, r) {
        forall t ensures !Counterpart(C, R, r, t) {
          if Counterpart(C, R, r, t) {
            assert IsRegenerated(C, R, t);
          }
        }
      } else if Missing(C, R, r) {
        var t :| IsRegenerated(C, R, t) && t.name == r.name;
        assert Counterpart(C, R, r, t);
      } else {
        var c :| c in C && c.id == r.id;
        assert Counterpart(C, R, r, c);
      }
    }
    forall t | t in C
      ensures IsAdded(C, R, t) <==> forall r :: !Counterpart(C, R, r, t)
    {
      if IsAdded(C, R, t) {
        forall r ensures !Counterpart(C, R, r, t) {
          if Counterpart(C, R, r, t) {
            assert IsRegenerated(C, R, t);
          }
        }
      } else if Absent(C, R, t) {
        var r :| Missing(C, R, r) && r.name == t.name;
        assert Counterpart(C, R, r, t);
      } else {
        var r :| r in R && r.id == t.id;
        assert Counterpart(C, R, r, t);
      }
    }
  }
}

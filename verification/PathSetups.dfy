/** Setups and teardowns over the whole life of a contact: every path a valid contact is reached by outside
    the vicinity is set up once. */
module PathSetups {
  import opened NodeIds
  import opened SourceRoutes
  import opened FwdTables
  import opened PathWriters

  /** The states a contact goes through, from the event that announces it on. */
  type Life = seq<RoutedContact>

  function EventAt(life: Life, k: nat): ContactEvent
    requires k < |life|
  {
    if k == 0 then New(life[0]) else Updated(life[k], life[k - 1])
  }

  /** What the i-th to j-th event of the life make the node send. */
  function Sent(life: Life, i: nat, j: nat): seq<Action>
    requires i <= j <= |life|
    decreases j
  {
    if i == j then [] else Sent(life, i, j - 1) + OnContact(EventAt(life, j - 1))
  }

  /** The paths set up, in order. */
  function Setups(actions: seq<Action>): seq<Path> {
    if actions == [] then []
    else
      var init, a := actions[..|actions| - 1], actions[|actions| - 1];
      Setups(init) + (if a.SendSetup? then [a.ids] else [])
  }

  lemma {:induction false} SetupsAdd(a: seq<Action>, b: seq<Action>)
    ensures Setups(a + b) == Setups(a) + Setups(b)
  {
    if b == [] {
      assert a + b == a;
    } else {
      assert (a + b)[..|a + b| - 1] == a + b[..|b| - 1];
      SetupsAdd(a, b[..|b| - 1]);
    }
  }

  predicate InUse(c: RoutedContact) {
    c.state.Valid? && Outside(c)
  }

  /** From the i-th to the j-th state the contact is valid and reached by one path outside the vicinity,
      and before that it was not. */
  predicate IsStretch(life: Life, i: nat, j: nat) {
    && i <= j < |life| && InUse(life[i])
    && (forall k :: i <= k <= j ==> life[k].state.Valid? && life[k].path == life[i].path)
    && (i > 0 ==> !(life[i - 1].state.Valid? && life[i - 1].path == life[i].path))
  }

  predicate Forgotten(c: RoutedContact) {
    c.state.Dead? || c.state.Unknown?
  }

  /** The contact was valid and reached by the same path before. */
  predicate Again(life: Life, k: nat)
    requires k < |life|
  {
    k > 0 && life[k - 1].state.Valid? && life[k - 1].path == life[k].path
  }

  lemma SetupsOfOne(a: Action)
    ensures Setups([a]) == if a.SendSetup? then [a.ids] else []
  {
    assert [a][..0] == [];
  }

  lemma SetupsOfTwo(a: Action, b: Action)
    requires b.SendTeardown?
    ensures Setups([a, b]) == if a.SendSetup? then [a.ids] else []
  {
    SetupsOfOne(a);
    assert [a, b][..1] == [a];
  }

  lemma SetupOfUpdate(n: RoutedContact, o: RoutedContact)
    ensures Setups(OnContact(Updated(n, o)))
         == if InUse(n) && !(o.state.Valid? && o.path == n.path) && !Forgotten(o) then [n.path.ids] else []
  {
    var setup, down, also := SendSetup(n.path.ids), SendTeardown(o.path.ids), SendTeardown(n.path.ids);
    var actions := OnContact(Updated(n, o));
    SetupsOfOne(setup);
    SetupsOfOne(down);
    SetupsOfOne(also);
    SetupsOfTwo(setup, down);
    SetupsOfTwo(down, also);
    assert actions == [] || actions == [setup] || actions == [setup, down] || actions == [down] || actions == [also]
           || actions == [down, also];
  }

  lemma SetupAt(life: Life, k: nat)
    requires k < |life|
    ensures Setups(OnContact(EventAt(life, k)))
         == if InUse(life[k]) && !Again(life, k) && !(k > 0 && Forgotten(life[k - 1])) then [life[k].path.ids] else []
  {
    if k == 0 {
      SetupsOfOne(SendSetup(life[0].path.ids));
    } else {
      SetupOfUpdate(life[k], life[k - 1]);
    }
  }

  lemma {:induction false} StretchSetups(life: Life, i: nat, j: nat)
    requires IsStretch(life, i, j)
    ensures Setups(Sent(life, i, j + 1)) == Setups(OnContact(EventAt(life, i)))
    decreases j
  {
    SetupsAdd(Sent(life, i, j), OnContact(EventAt(life, j)));
    if i == j {
      assert Sent(life, i, j) == [];
    } else {
      StretchSetups(life, i, j - 1);
      SetupAt(life, j);
    }
  }

  /** In every life of a contact, each stretch during which it is valid and reached by one path outside the
      vicinity sees exactly one setup, for that path; there is none exactly if the contact was dead or unknown
      right before. */
  lemma {:induction false} OneSetupPerStretch(life: Life, i: nat, j: nat)
    requires IsStretch(life, i, j)
    ensures Setups(Sent(life, i, j + 1)) == if i > 0 && Forgotten(life[i - 1]) then [] else [life[i].path.ids]
  {
    StretchSetups(life, i, j);
    SetupAt(life, i);
  }

  /** Outside of such stretches nothing is set up. */
  lemma NoSetupOtherwise(life: Life, k: nat, a: Action)
    requires k < |life| && !InUse(life[k])
    ensures a in OnContact(EventAt(life, k)) ==> a.SendTeardown?
  {
  }

  /** When a stretch ends, its path is torn down exactly if the contact stays valid, by another path, or becomes
      invalid without moving into the vicinity; a contact that is rediscovered or given up at once keeps it. */
  lemma TornDownExactlyWhen(life: Life, i: nat, j: nat)
    requires IsStretch(life, i, j) && j + 1 < |life| && !IsStretch(life, i, j + 1)
    ensures SendTeardown(life[i].path.ids) in OnContact(EventAt(life, j + 1))
       <==> life[j + 1].state.Valid? || (life[j + 1].state.Invalid? && Outside(life[j + 1]))
  {
    assert life[j].path == life[i].path;
  }

  /** When a contact is removed, the path it was last reached by is torn down if it leaves the vicinity. */
  lemma RemovalTearsDown(c: RoutedContact)
    ensures OnContact(Removed(c)) == if Outside(c) then [SendTeardown(c.path.ids)] else []
  {
  }

  /** The handler alone does not rule that exception out: a contact that took the place of a dead one would be
      valid outside the vicinity without any setup. */
  lemma ReplacementIsNotSetUp(dead: RoutedContact, path: ActivePath)
    requires dead.state.Dead? && |path.ids| > VICINITY_RADIUS
    ensures var life := [dead, Changed(dead, Replace(path))];
            IsStretch(life, 1, 1) && Setups(Sent(life, 0, 2)) == []
  {
    var life := [dead, Changed(dead, Replace(path))];
    assert Sent(life, 0, 1) == Sent(life, 0, 0) + OnContact(EventAt(life, 0));
    assert Sent(life, 0, 2) == Sent(life, 0, 1) + OnContact(EventAt(life, 1)) == [];
  }
}

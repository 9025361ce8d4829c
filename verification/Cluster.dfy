/**
  The life of a machine: created at a provider, registered in Redis, destroyed
  at the provider, unregistered. Each task is two steps over two stores.
 */
module Cluster {
  import opened Wrappers

  // ---------- the clusters file ----------

  datatype ClusterSpec = ClusterSpec(name: string, machine: string, provider: string)
  datatype MachineSpec = MachineSpec(name: string, provider: string, location: string, gpu: bool)

  /** A provider's name leads to a site: two names of one provider class share its working directory. */
  datatype ClustersFile = ClustersFile(
    providers: map<string, string>, clusters: map<string, ClusterSpec>, machines: map<string, MachineSpec>)

  datatype MachineInstance = MachineInstance(
    machineId: string, machineName: string, location: string, clusterLabel: string, gpuLabel: string)

  /** A machine directory at a site. */
  datatype Place = Place(site: string, name: string)

  /** The machines at all sites, and the registry: records by name, cluster names, machine names by cluster. */
  datatype World = World(
    machines: map<Place, MachineInstance>,
    records: map<string, MachineInstance>,
    clusterNames: set<string>,
    members: map<string, set<string>>)

  function Members(w: World, cluster: string): set<string> {
    if cluster in w.members then w.members[cluster] else {}
  }

  /** The names of the machines that exist. */
  function Existing(w: World): set<string> {
    set p <- w.machines.Keys :: p.name
  }

  function Registered(w: World): set<string> { w.records.Keys }

  // ---------- the four steps ----------

  predicate KnownCluster(file: ClustersFile, cluster: string) {
    cluster in file.clusters && file.clusters[cluster].machine in file.machines
  }

  function MachineName(file: ClustersFile, cluster: string, id: string): string
    requires KnownCluster(file, cluster)
  {
    file.machines[file.clusters[cluster].machine].name + "-" + id
  }

  /** `create_instance`: a machine named after its template and an alias or random id. */
  function CreateMachine(file: ClustersFile, w: World, cluster: string, id: string): Option<(World, MachineInstance)> {
    if !KnownCluster(file, cluster) then None
    else
      var c := file.clusters[cluster];
      var m := file.machines[c.machine];
      var name := MachineName(file, cluster, id);
      if m.provider !in file.providers then None
      else
        var gpu := if m.gpu then "yes" else "no";
        var instance := MachineInstance("/local/" + m.location + "/" + name, name, m.location, c.name, gpu);
        Some((w.(machines := w.machines[Place(file.providers[m.provider], name) := instance]), instance))
  }

  /** `register_instance` */
  function Register(w: World, m: MachineInstance, cluster: string): World {
    w.(records := w.records[m.machineName := m],
       clusterNames := w.clusterNames + {cluster},
       members := w.members[cluster := Members(w, cluster) + {m.machineName}])
  }

  /** `destroy_instance`: the provider is the cluster's; a missing directory is an error. */
  function DestroyMachine(file: ClustersFile, w: World, cluster: string, name: string): Option<World> {
    if cluster !in file.clusters || file.clusters[cluster].provider !in file.providers then None
    else
      var place := Place(file.providers[file.clusters[cluster].provider], name);
      if place !in w.machines then None else Some(w.(machines := w.machines - {place}))
  }

  /** `unregister_instance` */
  function Unregister(w: World, name: string, cluster: string): World {
    w.(records := w.records - {name},
       members := if cluster in w.members then w.members[cluster := w.members[cluster] - {name}] else w.members)
  }

  /** The two steps of a create: what they leave, and the machine. */
  function CreatedAndRegistered(file: ClustersFile, w: World, cluster: string, id: string)
    : Option<(World, MachineInstance)>
  {
    match CreateMachine(file, w, cluster, id)
    case None => None
    case Some(done) => Some((Register(done.0, done.1, cluster), done.1))
  }

  /** The two steps of a destroy. */
  function DestroyedAndUnregistered(file: ClustersFile, w: World, cluster: string, name: string): Option<World> {
    match DestroyMachine(file, w, cluster, name)
    case None => None
    case Some(w') => Some(Unregister(w', name, cluster))
  }

  /** The cluster's machines are created at the site where they are later destroyed. */
  predicate SameSite(file: ClustersFile, cluster: string)
    requires KnownCluster(file, cluster)
  {
    var created, destroyed := file.machines[file.clusters[cluster].machine].provider, file.clusters[cluster].provider;
    && created in file.providers && destroyed in file.providers
    && file.providers[created] == file.providers[destroyed]
  }

  /** `found` holds the machines at a site, each once, in the given order of their directories. */
  ghost predicate ListsInOrder(found: seq<MachineInstance>, w: World, site: string, order: seq<Place>) {
    && (forall p :: p in order <==> p in w.machines && p.site == site)
    && (forall i, j | 0 <= i < j < |order| :: order[i] != order[j])
    && |found| == |order|
    && (forall i | 0 <= i < |order| :: order[i] in w.machines && found[i] == w.machines[order[i]])
  }

  ghost predicate ListsEachOnce(found: seq<MachineInstance>, w: World, site: string) {
    exists order: seq<Place> :: ListsInOrder(found, w, site, order)
  }

  // ---------- one task at a time ----------

  class ClusterControl {
    const file: ClustersFile
    var machines: map<Place, MachineInstance>
    var records: map<string, MachineInstance>
    var clusterNames: set<string>
    var members: map<string, set<string>>

    constructor (file: ClustersFile)
      ensures this.file == file
      ensures View() == World(map[], map[], {}, map[])
    {
      this.file := file;
      machines, records, clusterNames, members := map[], map[], {}, map[];
    }

    function View(): World reads this {
      World(machines, records, clusterNames, members)
    }

    method CreateInstance(cluster: string, id: string) returns (r: Option<MachineInstance>)
      modifies this
      ensures match CreateMachine(file, old(View()), cluster, id)
              case None => r == None && View() == old(View())
              case Some(done) => r == Some(done.1) && View() == done.0
    {
      if cluster !in file.clusters || file.clusters[cluster].machine !in file.machines {
        return None;
      }
      var spec := file.clusters[cluster];
      var machine := file.machines[spec.machine];
      var name := machine.name + "-" + id;
      var gpu := "no";
      if machine.gpu {
        gpu := "yes";
      }
      if machine.provider !in file.providers {
        return None;
      }
      var machineId := "/local/" + machine.location + "/" + name;
      var instance := MachineInstance(machineId, name, machine.location, spec.name, gpu);
      machines := machines[Place(file.providers[machine.provider], name) := instance];
      return Some(instance);
    }

    method RegisterInstance(machine: MachineInstance, cluster: string)
      modifies this
      ensures View() == Register(old(View()), machine, cluster)
    {
      records := records[machine.machineName := machine];
      clusterNames := clusterNames + {cluster};
      var listed := if cluster in members then members[cluster] else {};
      members := members[cluster := listed + {machine.machineName}];
    }

    method DestroyInstance(name: string, cluster: string) returns (ok: bool)
      modifies this
      ensures match DestroyMachine(file, old(View()), cluster, name)
              case None => !ok && View() == old(View())
              case Some(w) => ok && View() == w
    {
      if cluster !in file.clusters || file.clusters[cluster].provider !in file.providers {
        return false;
      }
      var place := Place(file.providers[file.clusters[cluster].provider], name);
      if place !in machines {
        return false;
      }
      machines := machines - {place};
      return true;
    }

    method UnregisterInstance(name: string, cluster: string)
      modifies this
      ensures View() == Unregister(old(View()), name, cluster)
    {
      records := records - {name};
      if cluster in members {
        members := members[cluster := members[cluster] - {name}];
      }
    }

    method ListInstances(cluster: string) returns (names: set<string>)
      ensures forall n :: n in names <==> n in Members(View(), cluster)
    {
      names := if cluster in members then members[cluster] else {};
    }

    method GetInstance(name: string) returns (r: Option<MachineInstance>)
      ensures r.Some? <==> name in Registered(View())
      ensures r.Some? ==> r.value == View().records[name]
    {
      r := if name in records then Some(records[name]) else None;
    }

    /** `list_machines` of a provider at a site; its location and tag arguments play no part. */
    method ListMachines(site: string) returns (found: seq<MachineInstance>)
      ensures ListsEachOnce(found, View(), site)
    {
      ghost var order: seq<Place>;
      found, order := [], [];
      var todo := machines.Keys;
      while todo != {}
        invariant todo <= machines.Keys
        invariant forall p :: p in order <==> p in machines.Keys - todo && p.site == site
        invariant forall i, j | 0 <= i < j < |order| :: order[i] != order[j]
        invariant |found| == |order|
        invariant forall i | 0 <= i < |order| :: order[i] in machines && found[i] == machines[order[i]]
        decreases todo
      {
        var place :| place in todo;
        if place.site == site {
          found, order := found + [machines[place]], order + [place];
        }
        todo := todo - {place};
      }
      assert ListsInOrder(found, View(), site, order);
    }

    /** The task `create_instance`, uninterrupted. */
    method CreateTask(cluster: string, id: string) returns (r: Option<MachineInstance>)
      modifies this
      ensures match CreatedAndRegistered(file, old(View()), cluster, id)
              case None => r == None && View() == old(View())
              case Some(done) => r == Some(done.1) && View() == done.0
    {
      r := CreateInstance(cluster, id);
      if r.Some? {
        RegisterInstance(r.value, cluster);
      }
    }

    /** The task `destroy_instance`, uninterrupted: an error at the provider leaves the registry alone. */
    method DestroyTask(name: string, cluster: string) returns (ok: bool)
      modifies this
      ensures match DestroyedAndUnregistered(file, old(View()), cluster, name)
              case None => !ok && View() == old(View())
              case Some(w) => ok && View() == w
    {
      ok := DestroyInstance(name, cluster);
      if ok {
        UnregisterInstance(name, cluster);
      }
    }
  }

  // ---------- what the tasks leave ----------

  /** A machine made from a template for a cluster. */
  predicate IsMadeFrom(m: MachineInstance, template: MachineSpec, spec: ClusterSpec, id: string) {
    && m.machineName == template.name + "-" + id
    && m.location == template.location
    && m.machineId == "/local/" + template.location + "/" + m.machineName
    && m.clusterLabel == spec.name
    && m.gpuLabel == (if template.gpu then "yes" else "no")
  }

  /** Two worlds agree on all but one place, one name and that name in one cluster's list. */
  ghost predicate AgreeBut(w: World, w': World, place: Place, cluster: string) {
    && (forall p | p != place ::
          (p in w'.machines <==> p in w.machines) && (p in w.machines ==> w'.machines[p] == w.machines[p]))
    && (forall n | n != place.name ::
          && (n in w'.records <==> n in w.records)
          && (n in w.records ==> w'.records[n] == w.records[n])
          && (n in Members(w', cluster) <==> n in Members(w, cluster)))
    && (forall c | c != cluster :: Members(w', c) == Members(w, c))
  }

  /**
    A create fails exactly for an unknown cluster, template or provider. Otherwise the machine,
    made from the template, is at the template's site, in the records and in the cluster's list.
   */
  lemma CreateCompletes(file: ClustersFile, w: World, cluster: string, id: string)
    ensures CreatedAndRegistered(file, w, cluster, id).Some? <==>
            && cluster in file.clusters
            && file.clusters[cluster].machine in file.machines
            && file.machines[file.clusters[cluster].machine].provider in file.providers
    ensures CreatedAndRegistered(file, w, cluster, id).Some? ==>
              var (w', m) := CreatedAndRegistered(file, w, cluster, id).value;
              var template := file.machines[file.clusters[cluster].machine];
              var place := Place(file.providers[template.provider], template.name + "-" + id);
              && IsMadeFrom(m, template, file.clusters[cluster], id)
              && place in w'.machines && w'.machines[place] == m
              && place.name in w'.records && w'.records[place.name] == m
              && place.name in Members(w', cluster)
              && w'.clusterNames == w.clusterNames + {cluster}
              && AgreeBut(w, w', place, cluster)
  {
  }

  /**
    A destroy fails exactly for an unknown cluster or provider, or without the machine at the
    provider's site. Otherwise machine, record and membership are gone.
   */
  lemma DestroyCompletes(file: ClustersFile, w: World, cluster: string, name: string)
    ensures DestroyedAndUnregistered(file, w, cluster, name).Some? <==>
            && cluster in file.clusters
            && file.clusters[cluster].provider in file.providers
            && Place(file.providers[file.clusters[cluster].provider], name) in w.machines
    ensures DestroyedAndUnregistered(file, w, cluster, name).Some? ==>
              var w' := DestroyedAndUnregistered(file, w, cluster, name).value;
              var place := Place(file.providers[file.clusters[cluster].provider], name);
              && place !in w'.machines
              && name !in w'.records
              && name !in Members(w', cluster)
              && w'.clusterNames == w.clusterNames
              && AgreeBut(w, w', place, cluster)
  {
  }

  /** What a create and then a destroy of the same machine leave behind, when both succeed. */
  function CreateThenDestroy(file: ClustersFile, w: World, cluster: string, id: string): Option<World> {
    match CreatedAndRegistered(file, w, cluster, id)
    case None => None
    case Some(done) => DestroyedAndUnregistered(file, done.0, cluster, done.1.machineName)
  }

  /**
    Destroying undoes creating, for a fresh name, exactly when the machine is
    created at the site where the cluster destroys; otherwise the destroy fails
    and the machine stays. The name of the cluster stays listed in any case.
   */
  lemma DestroyUndoesCreate(file: ClustersFile, w: World, cluster: string, id: string)
    requires CreateMachine(file, w, cluster, id).Some?
    requires var n := MachineName(file, cluster, id);
             n !in Existing(w) && n !in Registered(w) && n !in Members(w, cluster)
    ensures var undone := CreateThenDestroy(file, w, cluster, id);
            if SameSite(file, cluster) then
              && undone.Some?
              && undone.value.machines == w.machines
              && undone.value.records == w.records
              && undone.value.clusterNames == w.clusterNames + {cluster}
              && forall c :: Members(undone.value, c) == Members(w, c)
            else undone.None?
  {
    var (w1, m) := CreateMachine(file, w, cluster, id).value;
    var n := m.machineName;
    assert forall p :: Place(p, n) in w.machines ==> n in Existing(w);
    var w2 := Register(w1, m, cluster);
    if SameSite(file, cluster) {
      var w3 := DestroyMachine(file, w2, cluster, n).value;
      assert w3.machines == w.machines;
      var w4 := Unregister(w3, n, cluster);
      assert w4.records == w.records;
      assert Members(w4, cluster) == Members(w, cluster);
    }
  }
}

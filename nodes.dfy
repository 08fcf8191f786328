/** Node-role derivation: the roles a node declares through
    `node-role.kubernetes.io/<role>` label keys, joined with commas. */
module Nodes {
  import opened Text
  import opened Cluster

  /** The label key that declares `role`. */
  function RoleKey(role: string): string {
    RoleLabel + role
  }

  predicate ValidRole(after: string) {
    after == "worker" || after == "master"
  }

  /** The result GetRoles may give for a node with these label keys: each
      declared valid role once, in either order when there are two. */
  predicate IsRoleString(keys: set<string>, r: string) {
    var w, m := RoleKey("worker") in keys, RoleKey("master") in keys;
    if w && m then r == "worker,master" || r == "master,worker"
    else if w then r == "worker"
    else if m then r == "master"
    else r == ""
  }

  /** A label key contributes exactly when it is the role prefix followed by a
      valid role. */
  lemma RoleKeyShape(key: string)
    ensures (IsPrefix(RoleLabel, key) && ValidRole(key[|RoleLabel|..]))
            <==> key == RoleKey("worker") || key == RoleKey("master")
  {
    if key == RoleKey("worker") || key == RoleKey("master") {
      assert key[..|RoleLabel|] == RoleLabel;
    }
    if IsPrefix(RoleLabel, key) {
      assert key == RoleLabel + key[|RoleLabel|..];
    }
  }

  /** The roles GetRoles has kept once it has seen the worker key (`w`) and
      the master key (`m`), or not: in the order it met them. */
  predicate KeptRoles(res: seq<string>, w: bool, m: bool) {
    if w && m then res == ["worker", "master"] || res == ["master", "worker"]
    else if w then res == ["worker"]
    else if m then res == ["master"]
    else res == []
  }

  lemma RoleKeysDiffer()
    ensures RoleKey("worker") != RoleKey("master")
  {
    assert RoleKey("worker")[|RoleLabel|] == 'w';
    assert RoleKey("master")[|RoleLabel|] == 'm';
  }

  /** GetRoles: visits the label keys in map order (left open here), keeps
      the suffix of every key that starts with the role prefix when that
      suffix is "worker" or "master", and joins what it kept with ",". Label
      values are never read. */
  method GetRoles(node: Node) returns (r: string)
    ensures IsRoleString(node.labels.Keys, r)
  {
    var keys := node.labels.Keys;
    var res: seq<string> := [];
    var pending := keys;
    RoleKeysDiffer();
    while pending != {}
      invariant pending <= keys
      invariant KeptRoles(res, RoleKey("worker") in keys - pending, RoleKey("master") in keys - pending)
      decreases pending
    {
      var key :| key in pending;
      pending := pending - {key};
      RoleKeyShape(key);
      if IsPrefix(RoleLabel, key) {
        var after := key[|RoleLabel|..];
        assert key == RoleKey(after);
        if !ValidRole(after) {
          continue;
        }
        res := res + [after];
      }
    }
    assert Join(["worker", "master"], ",") == "worker,master";
    assert Join(["master", "worker"], ",") == "master,worker";
    r := Join(res, ",");
  }

  /** With both role labels, both orders are possible outcomes: the role text
      of one node can differ between two calls. */
  lemma RolesOrderOpen(keys: set<string>)
    requires RoleKey("worker") in keys && RoleKey("master") in keys
    ensures IsRoleString(keys, "worker,master") && IsRoleString(keys, "master,worker")
    ensures "worker,master" != "master,worker"
  {
  }
}

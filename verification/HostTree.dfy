/** link2symlink.c step by step on the tree of the host. */
module HostTree {
  import opened Link2Symlink

  class Host {
    var tree: Tree
    const l2sDirectory: string

    constructor (t: Tree, directory: string)
      ensures tree == t && l2sDirectory == directory
    {
      tree, l2sDirectory := t, directory;
    }

    // ----- The calls of the host -----

    method HostRename(source: string, dest: string) returns (status: int)
      modifies this
      ensures if source in old(tree) then status == 0 && tree == (old(tree) - {source})[dest := old(tree)[source]]
              else status == -1 && tree == old(tree)
    {
      if source !in tree {
        return -1;
      }
      tree := (tree - {source})[dest := tree[source]];
      status := 0;
    }

    method HostUnlink(path: string) returns (status: int)
      modifies this
      ensures if path in old(tree) then status == 0 && tree == old(tree) - {path} else status == -1 && tree == old(tree)
    {
      if path !in tree {
        return -1;
      }
      tree := tree - {path};
      status := 0;
    }

    method HostSymlink(target: string, path: string) returns (status: int)
      modifies this
      ensures if path in old(tree) then status == -1 && tree == old(tree)
              else status == 0 && tree == old(tree)[path := Link(target)]
    {
      if path in tree {
        return -1;
      }
      tree := tree[path := Link(target)];
      status := 0;
    }

    // ----- The extension -----

    /** Rename the final file and link the intermediate name to it again. */
    method Recount(intermediate: string, final: string, count: nat) returns (status: int)
      requires intermediate in tree
      modifies this
      ensures Effect(status, tree) == Relinked(old(tree), intermediate, final, WithCount(final, count))
    {
      var newFinal := WithCount(final, count);
      status := HostRename(final, newFinal);
      if status < 0 {
        return;
      }
      status := HostUnlink(intermediate);
      if status < 0 {
        return;
      }
      status := HostSymlink(newFinal, intermediate);
    }

    method DecrementLinkCount(original: string) returns (status: int)
      modifies this
      ensures Effect(status, tree) == Decremented(old(tree), original)
    {
      if original !in tree || !tree[original].Link? {
        return 0;
      }
      var intermediate := tree[original].target;
      if !IsL2s(intermediate) || intermediate !in tree || !tree[intermediate].Link? {
        return 0;
      }
      var final := tree[intermediate].target;
      var linkCount := Suffix(final) as int - 1;
      if linkCount > 0 {
        status := Recount(intermediate, final, linkCount);
      } else {
        status := HostUnlink(intermediate);
        status := HostUnlink(final);
      }
    }

    method FindSlot(base: string) returns (intermediate: string)
      ensures intermediate == Slot(base, FreeSlot(tree, base, 1))
    {
      var suffix: nat := 1;
      intermediate := Slot(base, suffix);
      suffix := suffix + 1;
      while Accessible(tree, intermediate) && suffix < SLOTS
        invariant 2 <= suffix <= SLOTS && intermediate == Slot(base, suffix - 1)
        invariant FreeSlot(tree, base, suffix - 1) == FreeSlot(tree, base, 1)
      {
        intermediate := Slot(base, suffix);
        suffix := suffix + 1;
      }
    }

    /** The first link of a file: move it away and leave a link in its place. */
    method MoveFirst(original: string, base: string) returns (status: int, intermediate: string)
      requires original in tree
      modifies this
      ensures var i := Slot(base, FreeSlot(old(tree), base, 1));
              var moved := (old(tree) - {original})[Final(i, 2) := old(tree)[original]];
              && intermediate == i
              && if i in moved then status == -1 && tree == moved
                 else if original in moved[i := Link(Final(i, 2))] then status == -1 && tree == moved[i := Link(Final(i, 2))]
                 else status == 0 && tree == moved[i := Link(Final(i, 2))][original := Link(i)]
    {
      intermediate := FindSlot(base);
      var final := Final(intermediate, 2);
      status := HostRename(original, final);
      status := HostSymlink(final, intermediate);
      if status < 0 {
        return;
      }
      status := HostSymlink(intermediate, original);
    }

    /** The first half of move_and_symlink_path. */
    method MovePath(original: string) returns (status: int, intermediate: string)
      modifies this
      ensures var m := Moved(old(tree), original, l2sDirectory);
              status == m.status && tree == m.tree && (status == 0 ==> intermediate == m.intermediate)
    {
      intermediate := "";
      if original !in tree {
        return -ENOENT, intermediate;
      }
      if tree[original].Link? && IsL2s(tree[original].target) {
        intermediate := tree[original].target;
        if intermediate !in tree || !tree[intermediate].Link? {
          return -1, intermediate;
        }
        var final := tree[intermediate].target;
        status := Recount(intermediate, final, Suffix(final) + 1);
      } else if tree[original].Link? {
        status, intermediate := MoveFirst(original, tree[original].target);
      } else {
        if TooLong(original, l2sDirectory) {
          return -ENAMETOOLONG, intermediate;
        }
        status, intermediate := MoveFirst(original, BaseOf(original, l2sDirectory));
      }
    }

    /** `refused` tells whether the host cannot make the name for another reason than its existence. */
    method MoveAndSymlinkPath(original: string, link: string, refused: bool) returns (status: int)
      modifies this
      ensures Effect(status, tree) == Linked(old(tree), original, link, l2sDirectory, refused)
    {
      var intermediate;
      status, intermediate := MovePath(original);
      if status < 0 {
        return;
      }
      if !refused {
        status := HostSymlink(intermediate, link);
      }
      if refused || status < 0 {
        var undone := DecrementLinkCount(original);
        return -EEXIST;
      }
    }

    /** unlink(2): the count first, then the call itself, which the host may not grant. */
    method OnUnlink(path: string, granted: bool) returns (status: int)
      modifies this
      ensures Effect(status, tree) == Unlinked(old(tree), path, granted)
    {
      status := DecrementLinkCount(path);
      if status < 0 {
        return;
      }
      if !granted {
        return -1;
      }
      status := HostUnlink(path);
    }

    /** rename(2), likewise: the new name loses its file before the call. */
    method OnRename(source: string, dest: string, granted: bool) returns (status: int)
      modifies this
      ensures Effect(status, tree) == Renamed(old(tree), source, dest, granted)
    {
      status := DecrementLinkCount(dest);
      if status < 0 {
        return;
      }
      if !granted {
        return -1;
      }
      status := HostRename(source, dest);
    }
  }
}

// Connections, discovered areas and the database tables that hold them.
module Areas {
  // A process image or merker area has no number; a data block has one.
  datatype AreaRef = DataBlock(number: nat) | Inputs | Outputs | Merkers

  datatype AreaKey = AreaKey(connection: nat, area: AreaRef)

  datatype ExposureMode = MirrorAll | Whitelist

  datatype AreaStatus = New | Ok | Grown | Shrunk | Missing

  datatype Connection = Connection(mode: ExposureMode, enabled: bool)

  datatype AreaRow = AreaRow(size: int, exposed: bool, status: AreaStatus)

  type AreaTable = map<AreaKey, AreaRow>

  function OfConnection(areas: AreaTable, connection: nat): map<AreaRef, AreaRow> {
    map k | k in areas && k.connection == connection :: k.area := areas[k]
  }

  function WithoutConnection(areas: AreaTable, connection: nat): AreaTable {
    map k | k in areas && k.connection != connection :: areas[k]
  }

  // Rows are identified by their unique (connection, area) key.
  class Database {
    var connections: map<nat, Connection>
    var areas: AreaTable

    constructor ()
      ensures connections == map[] && areas == map[]
    {
      connections, areas := map[], map[];
    }

    // Creating or updating a connection.
    method SaveConnection(connection: nat, settings: Connection)
      modifies this`connections
      ensures connections == old(connections)[connection := settings]
    {
      connections := connections[connection := settings];
    }

    // The default exposure applies to a new row only.
    method UpsertArea(key: AreaKey, size: int, status: AreaStatus, defaultExposed: bool)
      modifies this`areas
      ensures var exposed := if key in old(areas) then old(areas)[key].exposed else defaultExposed;
              areas == old(areas)[key := AreaRow(size, exposed, status)]
    {
      if key in areas {
        areas := areas[key := areas[key].(size := size, status := status)];
      } else {
        areas := areas[key := AreaRow(size, defaultExposed, status)];
      }
    }

    method SetAreaStatus(key: AreaKey, status: AreaStatus)
      modifies this`areas
      ensures areas == if key in old(areas) then old(areas)[key := old(areas)[key].(status := status)] else old(areas)
    {
      if key in areas {
        areas := areas[key := areas[key].(status := status)];
      }
    }

    method SetAreaExposed(key: AreaKey, exposed: bool)
      modifies this`areas
      ensures areas == if key in old(areas) then old(areas)[key := old(areas)[key].(exposed := exposed)] else old(areas)
    {
      if key in areas {
        areas := areas[key := areas[key].(exposed := exposed)];
      }
    }

    method DeleteArea(key: AreaKey)
      modifies this`areas
      ensures areas == old(areas) - {key}
    {
      areas := areas - {key};
    }

    // Area rows go with their connection.
    method DeleteConnection(connection: nat)
      modifies this
      ensures connections == old(connections) - {connection}
      ensures areas == WithoutConnection(old(areas), connection)
    {
      connections := connections - {connection};
      areas := WithoutConnection(areas, connection);
    }
  }
}

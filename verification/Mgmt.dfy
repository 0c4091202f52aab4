/** The mcumgr notifications that the callbacks of fwloader_mcumgr_mgmt_callbacks.c receive and answer. */
module Mgmt {
  import opened Bytes

  const MGMT_GROUP_ID_FS: u16 := 8
  const MGMT_ERR_EINVAL := 3

  datatype MgmtEvent = OpCmdRecv | FsMgmtFileAccess | OtherEvent

  datatype CbReturn = CbOk | CbErrorErr(group: u16, rc: int)
}
